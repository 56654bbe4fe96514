/**
 The memory management unit: the two-level page walk that fills the one-entry TLB
 (core/memory.c) and the LART physical map (mach/lart/lartmem.c).  The walk follows
 chapter B3 of the ARM Architecture Reference Manual, except where the code does not.
 */
module Mmu {
  import opened Words

  // ---------- the physical map ----------

  /** Read functions a TLB entry can hold; DRAM banks are numbered by their top address byte. */
  datatype Reader = NullRead | FaultRead | RomRead | SerialRead | TimerRead | MemCtlRead | LcdRead
                  | BankRead(bank: word) | ZeroRead

  datatype Writer = NullWrite | FaultWrite | RomWrite | SerialWrite | TimerWrite | MemCtlWrite | LcdWrite
                  | BankWrite(bank: word)

  datatype Handlers = Handlers(read: Reader, write: Writer)

  datatype Option<T> = None | Some(value: T)

  function Guard(h: Handlers, readperm: bool, writeperm: bool): Handlers {
    Handlers(if readperm then h.read else FaultRead, if writeperm then h.write else FaultWrite)
  }

  function TopByte(pa: word): word {
    pa >> 24
  }

  predicate IsBank(top: word) {
    top == 0xc0 || top == 0xc1 || top == 0xc8 || top == 0xc9
  }

  /**
   memory_physicalmap: the handlers for a physical address.  `None` is an abort; two
   ranges of addresses leave the entry's handlers as they were.
   */
  function PhysicalMap(h: Handlers, pa: word, readperm: bool, writeperm: bool): Option<Handlers> {
    var top := TopByte(pa);
    if top == 0x08 || top == 0x00 then Some(Guard(Handlers(RomRead, RomWrite), readperm, writeperm))
    else if top == 0x80 then Some(Guard(Handlers(SerialRead, SerialWrite), readperm, writeperm))
    else if top == 0x90 then Some(Guard(Handlers(TimerRead, TimerWrite), readperm, writeperm))
    else if top == 0xa0 then Some(Guard(Handlers(MemCtlRead, MemCtlWrite), readperm, writeperm))
    else if top == 0xb0 then Some(Guard(Handlers(LcdRead, LcdWrite), readperm, writeperm))
    else if IsBank(top) then Some(Guard(Handlers(BankRead(top), BankWrite(top)), readperm, writeperm))
    else if 0xc2 <= top <= 0xc7 || 0xca <= top <= 0xdf then Some(h)
    else if 0xe0 <= top <= 0xe7 then Some(Guard(Handlers(ZeroRead, NullWrite), readperm, writeperm))
    else None
  }

  function Get<K, V>(m: map<K, V>, k: K): Option<V> {
    if k in m then Some(m[k]) else None
  }

  lemma GetOther<K, V>(m: map<K, V>, k: K, v: V, other: K)
    requires other != k
    ensures Get(m[k := v], other) == Get(m, other)
  {
  }

  /** DRAM contents by word address. */
  type Ram = map<word, word>

  function WordAddress(pa: word): word {
    pa & 0xffff_fffc
  }

  /** memory_readphysicalword: only DRAM can hold page tables; anything else aborts. */
  function PhysicalWord(ram: Ram, pa: word): Option<word> {
    if IsBank(TopByte(pa)) then Get(ram, WordAddress(pa)) else None
  }

  // ---------- TLB entries and the walk ----------

  /** The masks of what an entry can span, with the quarters of a large and a small page. */
  const MEGABYTES16: word := 0xff00_0000
  const SECTION: word := 0xfff0_0000
  const LARGE: word := 0xffff_0000
  const LARGE_QUARTER: word := 0xffff_c000
  const SMALL: word := 0xffff_f000
  const SMALL_QUARTER: word := 0xffff_fc00

  /** The part of an address a mask keeps. */
  function Masked(x: word, mask: word): word {
    x & mask
  }

  /** A kept part, completed with the bits of `x` that the mask drops. */
  function Completed(part: word, x: word, mask: word): word {
    part | (x & !mask)
  }

  /** "There isn't a mode -1". */
  const NO_MODE: word := 0xffff_ffff

  datatype Tlb = Tlb(virtual: word, physical: word, mask: word, modestamp: word, handlers: Handlers)

  /** memory_inittlb. */
  const INITIAL_TLB := Tlb(0, 0, 0, NO_MODE, Handlers(NullRead, NullWrite))

  /** memory_invalidatetlb. */
  function Invalidate(t: Tlb): Tlb {
    t.(modestamp := NO_MODE)
  }

  /** The coprocessor registers the walk reads. */
  datatype Regs = Regs(control: word, base: word, domains: word)

  predicate MmuOn(r: Regs) {
    r.control & 1 == 1
  }

  predicate Misaligned(r: Regs, va: word, alignment: word) {
    r.control & 2 != 0 && va & (alignment - 1) != 0
  }

  /** The S and R bits. */
  function SystemRom(r: Regs): word {
    (r.control >> 8) & 3
  }

  /** The access-permission table: (read, write) by permission bits, S and R bits, and privilege. */
  function Permissions(ap: word, rs: word, user: bool): (bool, bool) {
    if ap == 0 then (if user then rs == 2 else rs == 1 || rs == 2, false)
    else if ap == 1 then (!user, !user)
    else if ap == 2 then (true, !user)
    else (true, true)
  }

  /** The walk's test for user mode: `&` binds looser than `==`, so it is mode & (15 == 0). */
  predicate IsUser(mode: word) {
    mode & BoolWord(15 == 0) != 0
  }

  /** Its decision is the architecture's exactly when the two privileges agree or the mode is privileged. */
  lemma UserChecksExactly(ap: word, rs: word, mode: word)
    ensures Permissions(ap, rs, IsUser(mode)) == Permissions(ap, rs, mode & 15 == 0)
       <==> mode & 15 != 0 || ap >= 3 || (ap == 0 && rs != 1)
  {
  }

  datatype Walk = Walk(pa: word, tlb: Tlb, fault: bool) | Stopped

  /** What a descriptor grants: who may access, and how far the grant reaches. */
  datatype Grant = Grant(pa: word, mask: word, readperm: bool, writeperm: bool)

  function Install(g: Grant, va: word, mode: word, t: Tlb, fault: bool): Walk {
    match PhysicalMap(t.handlers, g.pa, g.readperm, g.writeperm)
    case None => Stopped
    case Some(h) => Walk(g.pa, Tlb(Masked(va, g.mask), Masked(g.pa, g.mask), g.mask, mode, h), fault)
  }

  /** A domain is no access (0), client (1), reserved (2, refused) or manager (3). */
  function DomainAccess(r: Regs, l1: word): word {
    (r.domains >> (((l1 >> 5) & 0xf) << 1)) & 3
  }

  function Ap(l: word, sub: word): word
    requires sub < 4
  {
    (l >> (2 * sub + 4)) & 3
  }

  /** All four subpages have the same permissions. */
  predicate FullPage(l2: word) {
    Ap(l2, 0) == Ap(l2, 1) && Ap(l2, 1) == Ap(l2, 2) && Ap(l2, 2) == Ap(l2, 3)
  }

  function SectionIndex(va: word): word {
    va >> 20
  }

  function PageIndex(va: word): word {
    (va >> 12) & 0xff
  }

  function FirstLevelAddress(r: Regs, va: word): word {
    r.base | (SectionIndex(va) << 2)
  }

  function SecondLevelAddress(l1: word, va: word): word {
    ((l1 >> 10) << 10) | (PageIndex(va) << 2)
  }

  /** A page's physical address: the frame from the descriptor, the offset from the address. */
  function Join(l: word, frame: word, va: word): word {
    Completed(Masked(l, frame), va, frame)
  }

  /** Which of its four subpages an address of a large or small page lies in. */
  function LargeSubpage(va: word): (sub: word)
    ensures sub < 4
  {
    ((va & 0xffff) >> 14) & 3
  }

  function SmallSubpage(va: word): (sub: word)
    ensures sub < 4
  {
    ((va & 0xfff) >> 10) & 3
  }

  predicate IsClient(r: Regs, l1: word) {
    DomainAccess(r, l1) == 1
  }

  /** A client's accesses are checked; a manager's are not. */
  function Access(r: Regs, mode: word, l1: word, l: word, sub: word): (bool, bool)
    requires sub < 4
  {
    if IsClient(r, l1) then Permissions(Ap(l, sub), SystemRom(r), IsUser(mode)) else (true, true)
  }

  function SectionGrant(r: Regs, mode: word, l1: word, va: word): Grant {
    var (rd, wr) := Access(r, mode, l1, l1, 3);
    Grant(Join(l1, SECTION, va), SECTION, rd, wr)
  }

  /** A page's grant reaches over one quarter only when a client's quarters differ. */
  function PageMask(r: Regs, l1: word, l2: word, whole: word, quarter: word): word {
    if IsClient(r, l1) && !FullPage(l2) then quarter else whole
  }

  /** Large (64K) and small (4K) pages: `whole` and `quarter` are the masks of page and subpage. */
  function PageGrant(r: Regs, mode: word, l1: word, l2: word, va: word, whole: word, quarter: word, sub: word): Grant
    requires sub < 4
  {
    var (rd, wr) := Access(r, mode, l1, l2, sub);
    Grant(Join(l2, whole, va), PageMask(r, l1, l2, whole, quarter), rd, wr)
  }

  function LargeGrant(r: Regs, mode: word, l1: word, l2: word, va: word): Grant {
    PageGrant(r, mode, l1, l2, va, LARGE, LARGE_QUARTER, LargeSubpage(va))
  }

  function SmallGrant(r: Regs, mode: word, l1: word, l2: word, va: word): Grant {
    PageGrant(r, mode, l1, l2, va, SMALL, SMALL_QUARTER, SmallSubpage(va))
  }

  predicate DomainRefuses(r: Regs, l1: word) {
    DomainAccess(r, l1) == 0 || DomainAccess(r, l1) == 2
  }

  const DEADBEEF: word := 0xdead_beef

  /** A domain fault: the entry is dropped, and a marker address returned. */
  function Refused(t: Tlb): Walk {
    Walk(DEADBEEF, Invalidate(t), true)
  }

  /** With the MMU off an address is its own grant. */
  function IdentityGrant(va: word): Grant {
    Grant(va, MEGABYTES16, true, true)
  }

  /** memory_virtualtophysical. */
  function Translate(r: Regs, ram: Ram, mode: word, t: Tlb, va: word, alignment: word): Walk {
    if !MmuOn(r) then Install(IdentityGrant(va), va, mode, t, false)
    else
      match PhysicalWord(ram, FirstLevelAddress(r, va))
      case None => Stopped
      case Some(l1) => WalkFrom(r, ram, mode, t, va, l1, Misaligned(r, va, alignment))
  }

  /** The walk once the first-level descriptor is known. */
  function WalkFrom(r: Regs, ram: Ram, mode: word, t: Tlb, va: word, l1: word, misaligned: bool): Walk {
    if l1 & 3 == 1 then
      match PhysicalWord(ram, SecondLevelAddress(l1, va))
      case None => Stopped
      case Some(l2) =>
        if DomainRefuses(r, l1) then Refused(t)
        else if l2 & 3 == 1 then Install(LargeGrant(r, mode, l1, l2, va), va, mode, t, misaligned)
        else if l2 & 3 == 2 then Install(SmallGrant(r, mode, l1, l2, va), va, mode, t, misaligned)
        else Stopped
    else if l1 & 3 == 2 then
      if DomainRefuses(r, l1) then Refused(t)
      else Install(SectionGrant(r, mode, l1, va), va, mode, t, misaligned)
    else Stopped
  }

  // ---------- matching an entry ----------

  predicate Hits(t: Tlb, mode: word, va: word) {
    t.modestamp == mode && Masked(va, t.mask) == t.virtual
  }

  function HitAddress(t: Tlb, va: word): word {
    Completed(t.physical, va, t.mask)
  }

  // ---------- the span of an entry is sound ----------

  predicate SameUnder(va: word, va': word, mask: word) {
    Masked(va, mask) == Masked(va', mask)
  }

  /** The architecture's rule: a large-page descriptor is repeated over its 64K. */
  ghost predicate LargePagesRepeated(r: Regs, ram: Ram) {
    forall l1, va, va' {:trigger SecondLevelAddress(l1, va), SecondLevelAddress(l1, va')} ::
      SameUnder(va, va', LARGE)
      && PhysicalWord(ram, FirstLevelAddress(r, va)) == Some(l1) && l1 & 3 == 1
      && IsLarge(PhysicalWord(ram, SecondLevelAddress(l1, va)))
      ==> PhysicalWord(ram, SecondLevelAddress(l1, va')) == PhysicalWord(ram, SecondLevelAddress(l1, va))
  }

  predicate IsLarge(l2: Option<word>) {
    l2.Some? && l2.value & 3 == 1
  }

  /** Mapping again within the same 16MB changes no handler. */
  lemma MapAgain(h: Handlers, pa: word, pa': word, readperm: bool, writeperm: bool)
    requires TopByte(pa) == TopByte(pa')
    requires PhysicalMap(h, pa, readperm, writeperm).Some?
    ensures var m := PhysicalMap(h, pa, readperm, writeperm);
            PhysicalMap(m.value, pa', readperm, writeperm) == m
  {
    hide TopByte, IsBank;
  }

  /** `pa'` for `va'` is `pa` moved along a span of `mask`, within the same 16MB. */
  predicate SameFrame(pa: word, pa': word, mask: word, va': word) {
    && Masked(pa', mask) == Masked(pa, mask)
    && pa' == Completed(Masked(pa, mask), va', mask)
    && TopByte(pa') == TopByte(pa)
  }

  /** `g'` for `va'` is the same grant, further along the span. */
  predicate SameSpan(g: Grant, g': Grant, va': word) {
    && g'.mask == g.mask && g'.readperm == g.readperm && g'.writeperm == g.writeperm
    && SameFrame(g.pa, g'.pa, g.mask, va')
  }

  lemma InstallAgain(g: Grant, g': Grant, va: word, va': word, mode: word, t: Tlb, u: Tlb, fault: bool, fault': bool)
    requires Install(g, va, mode, t, fault).Walk?
    requires u.handlers == Install(g, va, mode, t, fault).tlb.handlers
    requires SameUnder(va, va', g.mask) && SameSpan(g, g', va')
    ensures var t' := Install(g, va, mode, t, fault).tlb;
            Install(g', va', mode, u, fault') == Walk(HitAddress(t', va'), t', fault')
  {
    hide PhysicalMap, TopByte, Masked, Completed;
    MapAgain(t.handlers, g.pa, g'.pa, g.readperm, g.writeperm);
  }

  /** Masks from coarse to fine; an address span of a finer one lies in one span of a coarser one. */
  predicate Contains(frame: word, mask: word) {
    frame & mask == frame
  }

  lemma CoarserToo(va: word, va': word, frame: word, mask: word)
    requires SameUnder(va, va', mask) && Contains(frame, mask)
    ensures SameUnder(va, va', frame)
  {
  }

  /** Addresses equal under a mask that contains the frame join it in the same span. */
  lemma JoinSpan(l: word, frame: word, mask: word, va: word, va': word)
    requires SameUnder(va, va', mask)
    requires Contains(frame, mask) && Contains(MEGABYTES16, frame)
    ensures SameFrame(Join(l, frame, va), Join(l, frame, va'), mask, va')
  {
    hide Masked, Completed, TopByte, Contains, Join;
    JoinMasked(l, frame, mask, va, va');
    JoinCompleted(l, frame, mask, va, va');
    JoinTop(l, frame, va);
    JoinTop(l, frame, va');
  }

  lemma JoinMasked(l: word, frame: word, mask: word, va: word, va': word)
    requires Masked(va, mask) == Masked(va', mask) && Contains(frame, mask)
    ensures Masked(Join(l, frame, va'), mask) == Masked(Join(l, frame, va), mask)
  {
    hide Masked, Completed, Contains, Join;
    JoinCompleted(l, frame, mask, va, va');
    CompletedMasked(Join(l, frame, va), va', mask);
  }

  lemma CompletedMasked(x: word, va: word, mask: word)
    ensures Masked(Completed(Masked(x, mask), va, mask), mask) == Masked(x, mask)
  {
  }

  lemma JoinCompleted(l: word, frame: word, mask: word, va: word, va': word)
    requires Masked(va, mask) == Masked(va', mask) && Contains(frame, mask)
    ensures Join(l, frame, va') == Completed(Masked(Join(l, frame, va), mask), va', mask)
  {
  }

  lemma JoinTop(l: word, frame: word, va: word)
    requires Contains(MEGABYTES16, frame)
    ensures TopByte(Join(l, frame, va)) == TopByte(l)
  {
  }

  lemma SameSection(va: word, va': word)
    requires SameUnder(va, va', SECTION)
    ensures SectionIndex(va) == SectionIndex(va')
  {
  }

  lemma SameFirstLevel(r: Regs, va: word, va': word)
    requires SameUnder(va, va', SECTION)
    ensures FirstLevelAddress(r, va) == FirstLevelAddress(r, va')
  {
    hide SectionIndex;
    SameSection(va, va');
  }

  lemma SamePage(va: word, va': word)
    requires SameUnder(va, va', SMALL)
    ensures PageIndex(va) == PageIndex(va')
  {
  }

  lemma SameSecondLevel(l1: word, va: word, va': word)
    requires SameUnder(va, va', SMALL)
    ensures SecondLevelAddress(l1, va) == SecondLevelAddress(l1, va')
  {
    hide PageIndex;
    SamePage(va, va');
  }

  lemma SameLargeSubpage(va: word, va': word)
    requires SameUnder(va, va', LARGE_QUARTER)
    ensures LargeSubpage(va) == LargeSubpage(va')
  {
  }

  lemma SameSmallSubpage(va: word, va': word)
    requires SameUnder(va, va', SMALL_QUARTER)
    ensures SmallSubpage(va) == SmallSubpage(va')
  {
  }

  lemma SectionSpan(r: Regs, mode: word, l1: word, va: word, va': word)
    requires SameUnder(va, va', SECTION)
    ensures SameSpan(SectionGrant(r, mode, l1, va), SectionGrant(r, mode, l1, va'), va')
  {
    hide Join, SameFrame, SameUnder, Access, Contains;
    NestedMasks();
    JoinSpan(l1, SECTION, SECTION, va, va');
  }

  /** The quarter does not matter to a manager, or when all four have the same permissions. */
  lemma SameAccess(r: Regs, mode: word, l1: word, l2: word, sub: word, sub': word)
    requires sub < 4 && sub' < 4
    requires sub == sub' || FullPage(l2) || !IsClient(r, l1)
    ensures Access(r, mode, l1, l2, sub) == Access(r, mode, l1, l2, sub')
  {
    hide Ap, Permissions, SystemRom, IsUser, IsClient;
  }

  lemma WholeOrQuarter(r: Regs, l1: word, l2: word, va: word, va': word, whole: word, quarter: word)
    requires SameUnder(va, va', PageMask(r, l1, l2, whole, quarter))
    requires Contains(whole, whole) && Contains(whole, quarter)
    ensures SameUnder(va, va', whole) && Contains(whole, PageMask(r, l1, l2, whole, quarter))
    ensures SameUnder(va, va', quarter) || FullPage(l2) || !IsClient(r, l1)
  {
    hide SameUnder, Contains, FullPage, IsClient;
    CoarserToo(va, va', whole, PageMask(r, l1, l2, whole, quarter));
  }

  lemma PageSpan(r: Regs, mode: word, l1: word, l2: word, va: word, va': word, whole: word, quarter: word,
                 sub: word, sub': word)
    requires sub < 4 && sub' < 4
    requires Contains(MEGABYTES16, whole) && Contains(whole, whole) && Contains(whole, quarter)
    requires SameUnder(va, va', PageGrant(r, mode, l1, l2, va, whole, quarter, sub).mask)
    requires SameUnder(va, va', quarter) ==> sub == sub'
    ensures SameSpan(PageGrant(r, mode, l1, l2, va, whole, quarter, sub),
                     PageGrant(r, mode, l1, l2, va', whole, quarter, sub'), va')
    ensures SameUnder(va, va', whole)
  {
    hide Join, SameFrame, SameUnder, Access, PageMask, IsClient, FullPage, Contains;
    WholeOrQuarter(r, l1, l2, va, va', whole, quarter);
    JoinSpan(l2, whole, PageMask(r, l1, l2, whole, quarter), va, va');
    SameAccess(r, mode, l1, l2, sub, sub');
  }

  lemma SmallSpan(r: Regs, mode: word, l1: word, l2: word, va: word, va': word)
    requires SameUnder(va, va', SmallGrant(r, mode, l1, l2, va).mask)
    ensures SameSpan(SmallGrant(r, mode, l1, l2, va), SmallGrant(r, mode, l1, l2, va'), va')
    ensures SameUnder(va, va', SMALL)
  {
    hide PageGrant, SmallSubpage, SameUnder, SameSpan, Contains;
    NestedMasks();
    if SameUnder(va, va', SMALL_QUARTER) { SameSmallSubpage(va, va'); }
    PageSpan(r, mode, l1, l2, va, va', SMALL, SMALL_QUARTER, SmallSubpage(va), SmallSubpage(va'));
  }

  lemma LargeSpan(r: Regs, mode: word, l1: word, l2: word, va: word, va': word)
    requires SameUnder(va, va', LargeGrant(r, mode, l1, l2, va).mask)
    ensures SameSpan(LargeGrant(r, mode, l1, l2, va), LargeGrant(r, mode, l1, l2, va'), va')
    ensures SameUnder(va, va', LARGE)
  {
    hide PageGrant, LargeSubpage, SameUnder, SameSpan, Contains;
    NestedMasks();
    if SameUnder(va, va', LARGE_QUARTER) { SameLargeSubpage(va, va'); }
    PageSpan(r, mode, l1, l2, va, va', LARGE, LARGE_QUARTER, LargeSubpage(va), LargeSubpage(va'));
  }

  lemma NestedMasks()
    ensures Contains(MEGABYTES16, SECTION) && Contains(MEGABYTES16, LARGE) && Contains(MEGABYTES16, SMALL)
    ensures Contains(SECTION, SECTION) && Contains(SECTION, LARGE) && Contains(SECTION, SMALL)
    ensures Contains(LARGE, LARGE) && Contains(LARGE, LARGE_QUARTER)
    ensures Contains(SMALL, SMALL) && Contains(SMALL, SMALL_QUARTER)
  {
  }

  // ---------- a matched entry is a fresh walk ----------

  lemma OffSpan(va: word, va': word)
    requires SameUnder(va, va', MEGABYTES16)
    ensures SameFrame(va, va', MEGABYTES16, va')
  {
    hide Completed, Masked, TopByte;
    SplitWord(va', MEGABYTES16);
    SameTop(va, va');
  }

  lemma SplitWord(x: word, mask: word)
    ensures Completed(Masked(x, mask), x, mask) == x
  {
  }

  lemma SameTop(va: word, va': word)
    requires SameUnder(va, va', MEGABYTES16)
    ensures TopByte(va) == TopByte(va')
  {
  }

  lemma OffAgain(va: word, va': word, mode: word, t: Tlb, u: Tlb)
    requires Install(IdentityGrant(va), va, mode, t, false).Walk?
    requires u.handlers == Install(IdentityGrant(va), va, mode, t, false).tlb.handlers
    requires SameUnder(va, va', MEGABYTES16)
    ensures var t' := Install(IdentityGrant(va), va, mode, t, false).tlb;
            Install(IdentityGrant(va'), va', mode, u, false) == Walk(HitAddress(t', va'), t', false)
  {
    hide SameFrame, SameUnder, Install;
    OffSpan(va, va');
    InstallAgain(IdentityGrant(va), IdentityGrant(va'), va, va', mode, t, u, false, false);
  }

  lemma InstalledMask(g: Grant, va: word, mode: word, t: Tlb, fault: bool, va': word)
    requires Install(g, va, mode, t, fault).Walk?
    requires Hits(Install(g, va, mode, t, fault).tlb, mode, va')
    ensures SameUnder(va, va', g.mask)
  {
    hide PhysicalMap, Masked;
  }

  lemma RefusedMissed(t: Tlb, mode: word, va: word)
    requires mode != NO_MODE
    ensures !Hits(Refused(t).tlb, mode, va)
  {
  }

  /**
   Walking again at any address the entry a walk left matches: the hit's address and
   the same entry, whatever else the entry walked into held.
   */
  lemma WalkAgain(r: Regs, ram: Ram, mode: word, t: Tlb, u: Tlb, va: word, va': word, alignment: word, alignment': word)
    requires LargePagesRepeated(r, ram) && mode != NO_MODE
    requires Translate(r, ram, mode, t, va, alignment).Walk?
    requires Hits(Translate(r, ram, mode, t, va, alignment).tlb, mode, va')
    requires u.handlers == Translate(r, ram, mode, t, va, alignment).tlb.handlers
    ensures var t' := Translate(r, ram, mode, t, va, alignment).tlb;
            Translate(r, ram, mode, u, va', alignment') ==
            Walk(HitAddress(t', va'), t', MmuOn(r) && Misaligned(r, va', alignment'))
  {
    hide LargePagesRepeated, PhysicalWord, Install, DomainRefuses, SameUnder, FirstLevelAddress, WalkFrom, Hits, MmuOn,
         Misaligned;
    if MmuOn(r) {
      var l1 := PhysicalWord(ram, FirstLevelAddress(r, va)).value;
      WalkFromAgain(r, ram, mode, t, u, va, va', l1, Misaligned(r, va, alignment), Misaligned(r, va', alignment'));
    } else {
      InstalledMask(IdentityGrant(va), va, mode, t, false, va');
      OffAgain(va, va', mode, t, u);
    }
  }

  lemma WalkFromAgain(r: Regs, ram: Ram, mode: word, t: Tlb, u: Tlb, va: word, va': word, l1: word,
                      fault: bool, fault': bool)
    requires LargePagesRepeated(r, ram) && mode != NO_MODE
    requires PhysicalWord(ram, FirstLevelAddress(r, va)) == Some(l1)
    requires WalkFrom(r, ram, mode, t, va, l1, fault).Walk?
    requires Hits(WalkFrom(r, ram, mode, t, va, l1, fault).tlb, mode, va')
    requires u.handlers == WalkFrom(r, ram, mode, t, va, l1, fault).tlb.handlers
    ensures FirstLevelAddress(r, va) == FirstLevelAddress(r, va')
    ensures var t' := WalkFrom(r, ram, mode, t, va, l1, fault).tlb;
            WalkFrom(r, ram, mode, u, va', l1, fault') == Walk(HitAddress(t', va'), t', fault')
  {
    hide LargePagesRepeated, PhysicalWord, Install, DomainRefuses, SameUnder, FirstLevelAddress, SecondLevelAddress, Hits,
         SectionGrant, SmallGrant, LargeGrant, SameSpan, Refused, Contains;
    NestedMasks();
    RefusedMissed(t, mode, va');
    if l1 & 3 == 1 {
      var l2 := PhysicalWord(ram, SecondLevelAddress(l1, va)).value;
      if l2 & 3 == 1 {
        LargeAgain(r, ram, mode, t, u, va, va', l1, l2, fault, fault');
      } else {
        SmallAgain(r, mode, t, u, va, va', l1, l2, fault, fault');
      }
    } else {
      SectionAgain(r, mode, t, u, va, va', l1, fault, fault');
    }
  }

  lemma SectionAgain(r: Regs, mode: word, t: Tlb, u: Tlb, va: word, va': word, l1: word, fault: bool, fault': bool)
    requires Install(SectionGrant(r, mode, l1, va), va, mode, t, fault).Walk?
    requires Hits(Install(SectionGrant(r, mode, l1, va), va, mode, t, fault).tlb, mode, va')
    requires u.handlers == Install(SectionGrant(r, mode, l1, va), va, mode, t, fault).tlb.handlers
    ensures FirstLevelAddress(r, va) == FirstLevelAddress(r, va')
    ensures var t' := Install(SectionGrant(r, mode, l1, va), va, mode, t, fault).tlb;
            Install(SectionGrant(r, mode, l1, va'), va', mode, u, fault') == Walk(HitAddress(t', va'), t', fault')
  {
    hide Install, SameUnder, FirstLevelAddress, Hits, SameSpan, Access, Join;
    InstalledMask(SectionGrant(r, mode, l1, va), va, mode, t, fault, va');
    SectionSpan(r, mode, l1, va, va');
    SameFirstLevel(r, va, va');
    InstallAgain(SectionGrant(r, mode, l1, va), SectionGrant(r, mode, l1, va'), va, va', mode, t, u, fault, fault');
  }

  lemma SmallAgain(r: Regs, mode: word, t: Tlb, u: Tlb, va: word, va': word, l1: word, l2: word, fault: bool, fault': bool)
    requires Install(SmallGrant(r, mode, l1, l2, va), va, mode, t, fault).Walk?
    requires Hits(Install(SmallGrant(r, mode, l1, l2, va), va, mode, t, fault).tlb, mode, va')
    requires u.handlers == Install(SmallGrant(r, mode, l1, l2, va), va, mode, t, fault).tlb.handlers
    ensures FirstLevelAddress(r, va) == FirstLevelAddress(r, va')
    ensures SecondLevelAddress(l1, va) == SecondLevelAddress(l1, va')
    ensures var t' := Install(SmallGrant(r, mode, l1, l2, va), va, mode, t, fault).tlb;
            Install(SmallGrant(r, mode, l1, l2, va'), va', mode, u, fault') == Walk(HitAddress(t', va'), t', fault')
  {
    hide Install, SameUnder, FirstLevelAddress, SecondLevelAddress, Hits, SameSpan, SmallGrant, Contains;
    NestedMasks();
    InstalledMask(SmallGrant(r, mode, l1, l2, va), va, mode, t, fault, va');
    SmallSpan(r, mode, l1, l2, va, va');
    CoarserToo(va, va', SECTION, SMALL);
    SameFirstLevel(r, va, va');
    SameSecondLevel(l1, va, va');
    InstallAgain(SmallGrant(r, mode, l1, l2, va), SmallGrant(r, mode, l1, l2, va'), va, va', mode, t, u, fault, fault');
  }

  lemma LargeAgain(r: Regs, ram: Ram, mode: word, t: Tlb, u: Tlb, va: word, va': word, l1: word, l2: word,
                   fault: bool, fault': bool)
    requires LargePagesRepeated(r, ram) && l1 & 3 == 1
    requires PhysicalWord(ram, FirstLevelAddress(r, va)) == Some(l1)
    requires PhysicalWord(ram, SecondLevelAddress(l1, va)) == Some(l2) && IsLarge(Some(l2))
    requires Install(LargeGrant(r, mode, l1, l2, va), va, mode, t, fault).Walk?
    requires Hits(Install(LargeGrant(r, mode, l1, l2, va), va, mode, t, fault).tlb, mode, va')
    requires u.handlers == Install(LargeGrant(r, mode, l1, l2, va), va, mode, t, fault).tlb.handlers
    ensures FirstLevelAddress(r, va) == FirstLevelAddress(r, va')
    ensures PhysicalWord(ram, SecondLevelAddress(l1, va')) == Some(l2)
    ensures var t' := Install(LargeGrant(r, mode, l1, l2, va), va, mode, t, fault).tlb;
            Install(LargeGrant(r, mode, l1, l2, va'), va', mode, u, fault') == Walk(HitAddress(t', va'), t', fault')
  {
    hide Install, SameUnder, FirstLevelAddress, SecondLevelAddress, Hits, SameSpan, LargeGrant, Contains, PhysicalWord,
         IsLarge;
    NestedMasks();
    InstalledMask(LargeGrant(r, mode, l1, l2, va), va, mode, t, fault, va');
    LargeSpan(r, mode, l1, l2, va, va');
    CoarserToo(va, va', SECTION, LARGE);
    SameFirstLevel(r, va, va');
    InstallAgain(LargeGrant(r, mode, l1, l2, va), LargeGrant(r, mode, l1, l2, va'), va, va', mode, t, u, fault, fault');
  }
}
