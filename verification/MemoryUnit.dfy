/**
 The memory unit as the emulator runs it (core/memory.c): TLB entries and MMU registers
 updated in place.  Each accessor is proved to take the machine exactly one step of TlbRuns,
 so what is proved there about runs holds of any sequence of these calls.
 */
module MemoryUnit {
  import opened Words
  import opened Mmu
  import opened TlbRuns

  class TlbEntry {
    var virtual: word
    var physical: word
    var mask: word
    var modestamp: word
    var handlers: Handlers

    function Value(): Tlb
      reads this
    {
      Tlb(virtual, physical, mask, modestamp, handlers)
    }

    /** memory_inittlb. */
    constructor ()
      ensures Value() == INITIAL_TLB
    {
      modestamp := NO_MODE;
      virtual := 0;
      physical := 0;
      mask := 0;
      handlers := Handlers(NullRead, NullWrite);
    }

    /** memory_invalidatetlb. */
    method Drop()
      modifies this`modestamp
      ensures Value() == Invalidate(old(Value()))
    {
      modestamp := NO_MODE;
    }

    /** The handlers of one case of memory_physicalmap, or the faulting ones. */
    method Hold(reader: Reader, writer: Writer, readperm: bool, writeperm: bool)
      modifies this`handlers
      ensures handlers == Handlers(if readperm then reader else FaultRead, if writeperm then writer else FaultWrite)
    {
      handlers := Handlers(if readperm then reader else FaultRead, if writeperm then writer else FaultWrite);
    }

    /** memory_physicalmap; `ok` is false where it aborts. */
    method Map(pa: word, readperm: bool, writeperm: bool) returns (ok: bool)
      modifies this`handlers
      ensures ok == PhysicalMap(old(handlers), pa, readperm, writeperm).Some?
      ensures ok ==> handlers == PhysicalMap(old(handlers), pa, readperm, writeperm).value
    {
      var top := pa >> 24;
      ok := true;
      if top == 0x08 || top == 0x00 {
        Hold(RomRead, RomWrite, readperm, writeperm);
      } else if top == 0x80 {
        Hold(SerialRead, SerialWrite, readperm, writeperm);
      } else if top == 0x90 {
        Hold(TimerRead, TimerWrite, readperm, writeperm);
      } else if top == 0xa0 {
        Hold(MemCtlRead, MemCtlWrite, readperm, writeperm);
      } else if top == 0xb0 {
        Hold(LcdRead, LcdWrite, readperm, writeperm);
      } else if top == 0xc0 || top == 0xc1 || top == 0xc8 || top == 0xc9 {
        Hold(BankRead(top), BankWrite(top), readperm, writeperm);
      } else if 0xe0 <= top <= 0xe7 {
        Hold(ZeroRead, NullWrite, readperm, writeperm);
      } else if !(0xc2 <= top <= 0xc7 || 0xca <= top <= 0xdf) {
        ok := false;
      }
    }

    /** Record the span of a walk just mapped. */
    method Span(va: word, pa: word, m: word, mode: word)
      modifies this
      ensures Value() == Tlb(Masked(va, m), Masked(pa, m), m, mode, old(handlers))
    {
      hide Masked;
      mask := m;
      physical := Masked(pa, m);
      virtual := Masked(va, m);
      modestamp := mode;
    }
  }

  class MemInfo {
    const insttlb: TlbEntry
    const datatlb: TlbEntry
    var mmucontrol: word
    var translationbase: word
    var domainaccesscontrol: word
    var banks: Ram
    var currentmode: word
    var memoryfault: bool
    var halted: bool
    var trace: seq<Bus>

    ghost predicate Valid() {
      insttlb != datatlb
    }

    function Registers(): Regs
      reads this
    {
      Regs(mmucontrol, translationbase, domainaccesscontrol)
    }

    function State(): Machine
      reads this, insttlb, datatlb
    {
      if halted then Halted(trace)
      else Running(Registers(), banks, currentmode, insttlb.Value(), datatlb.Value(), memoryfault, trace)
    }

    constructor (ram: Ram, mode: word)
      ensures Valid() && fresh(insttlb) && fresh(datatlb)
      ensures State() == Running(Regs(0, 0, 0), ram, ByteMode(mode), INITIAL_TLB, INITIAL_TLB, false, [])
    {
      hide ByteMode;
      insttlb := new TlbEntry();
      datatlb := new TlbEntry();
      mmucontrol := 0;
      translationbase := 0;
      domainaccesscontrol := 0;
      banks := ram;
      currentmode := ByteMode(mode);
      memoryfault := false;
      halted := false;
      trace := [];
    }

    /** What memory_virtualtophysical does to an entry, to the fault flag and to its caller. */
    twostate predicate Walked(w: Walk, t: TlbEntry, ok: bool, pa: word)
      reads this, t
    {
      && ok == w.Walk?
      && (ok ==> pa == w.pa && t.Value() == w.tlb && memoryfault == (old(memoryfault) || w.fault))
    }

    /** memory_virtualtophysical; `ok` is false where it aborts. */
    method VirtualToPhysical(va: word, t: TlbEntry, alignment: word) returns (ok: bool, pa: word)
      modifies t, this`memoryfault
      ensures Walked(old(Translate(Registers(), banks, currentmode, t.Value(), va, alignment)), t, ok, pa)
    {
      hide PhysicalWord, PhysicalMap, FirstLevelAddress, MmuOn, Misaligned, WalkFrom, Masked;
      pa := va;
      if !MmuOn(Registers()) {
        ok := t.Map(va, true, true);
        t.Span(va, va, MEGABYTES16, currentmode);
        return;
      }
      var first := PhysicalWord(banks, FirstLevelAddress(Registers(), va));
      if first.None? { return false, va; }
      var misaligned := Misaligned(Registers(), va, alignment);
      ok, pa := FromDescriptor(va, t, first.value, misaligned);
    }

    /** The walk from a first-level descriptor. */
    method FromDescriptor(va: word, t: TlbEntry, l1: word, misaligned: bool) returns (ok: bool, pa: word)
      modifies t, this`memoryfault
      ensures Walked(old(WalkFrom(Registers(), banks, currentmode, t.Value(), va, l1, misaligned)), t, ok, pa)
    {
      hide PhysicalWord, SecondLevelAddress, DomainRefuses, PhysicalMap, Masked, SectionGrant, SmallGrant, LargeGrant;
      var r := Registers();
      if misaligned { memoryfault := true; }
      ok, pa := false, va;
      if l1 & 3 == 1 {
        var second := PhysicalWord(banks, SecondLevelAddress(l1, va));
        if second.None? { return; }
        if DomainRefuses(r, l1) {
          ok, pa := Refuse(t);
        } else if second.value & 3 == 1 {
          ok, pa := Fill(va, t, LargeGrant(r, currentmode, l1, second.value, va), misaligned);
        } else if second.value & 3 == 2 {
          ok, pa := Fill(va, t, SmallGrant(r, currentmode, l1, second.value, va), misaligned);
        }
      } else if l1 & 3 == 2 {
        if DomainRefuses(r, l1) {
          ok, pa := Refuse(t);
        } else {
          ok, pa := Fill(va, t, SectionGrant(r, currentmode, l1, va), misaligned);
        }
      }
    }

    /** A domain fault. */
    method Refuse(t: TlbEntry) returns (ok: bool, pa: word)
      modifies t`modestamp, this`memoryfault
      ensures Walked(old(Refused(t.Value())), t, ok, pa)
    {
      t.Drop();
      memoryfault := true;
      ok, pa := true, DEADBEEF;
    }

    /** Map what a descriptor grants and record its span. */
    method Fill(va: word, t: TlbEntry, g: Grant, misaligned: bool) returns (ok: bool, pa: word)
      requires misaligned ==> memoryfault
      modifies t
      ensures Walked(old(Install(g, va, currentmode, t.Value(), misaligned)), t, ok, pa)
    {
      hide PhysicalMap, Masked;
      pa := g.pa;
      ok := t.Map(pa, g.readperm, g.writeperm);
      t.Span(va, pa, g.mask, currentmode);
    }

    /** The check before every access: use the entry if it matches, walk if not. */
    method Find(t: TlbEntry, width: Width, va: word) returns (ok: bool, pa: word)
      modifies t, this`memoryfault
      ensures var was := old(t.Value());
              Walked(if Hits(was, currentmode, va) then Walk(HitAddress(was, va), was, false)
                     else old(Translate(Registers(), banks, currentmode, t.Value(), va, Alignment(width))), t, ok, pa)
    {
      hide Translate, Masked, Completed, Alignment;
      if t.modestamp != currentmode || Masked(va, t.mask) != t.virtual {
        ok, pa := VirtualToPhysical(va, t, Alignment(width));
      } else {
        ok, pa := true, Completed(t.physical, va, t.mask);
      }
    }

    /** The reading accessors, which differ in the entry, the width and the alignment. */
    method ReadThrough(side: Side, width: Width, va: word) returns (answer: Option<Bus>)
      requires Valid() && !halted
      modifies this, insttlb, datatlb
      ensures State() == old(ReadStep(State(), side, width, va, true))
      ensures !halted ==> answer.Some? && trace == old(trace) + [answer.value]
    {
      hide Translate, Hits, HitAddress, Answer, Alignment;
      var t := if side.Inst? then insttlb else datatlb;
      var ok, pa := Find(t, width, va);
      if !ok {
        halted := true;
        return None;
      }
      answer := Answer(t.handlers.read, banks, width, pa);
      if answer.None? {
        halted := true;
      } else {
        trace := trace + [answer.value];
      }
    }

    method ReadInstWord(va: word) returns (answer: Option<Bus>)
      requires Valid() && !halted
      modifies this, insttlb, datatlb
      ensures State() == old(Step(State(), Read(Inst, Word, va), true))
      ensures !halted ==> answer.Some? && trace == old(trace) + [answer.value]
    {
      hide ReadStep;
      answer := ReadThrough(Inst, Word, va);
    }

    method ReadData(width: Width, va: word) returns (answer: Option<Bus>)
      requires Valid() && !halted
      modifies this, insttlb, datatlb
      ensures State() == old(Step(State(), Read(Data, width, va), true))
      ensures !halted ==> answer.Some? && trace == old(trace) + [answer.value]
    {
      hide ReadStep;
      answer := ReadThrough(Data, width, va);
    }

    /** Call the entry's write function. */
    method Store(width: Width, pa: word, data: word)
      modifies this`trace, this`banks, this`memoryfault
      ensures banks == Stores(datatlb.handlers.write, old(banks), width, pa, data)
      ensures trace == old(trace) + Sends(datatlb.handlers.write, width, pa, data)
      ensures memoryfault == (old(memoryfault) || datatlb.handlers.write.FaultWrite?)
    {
      hide BankStore;
      match datatlb.handlers.write
      case NullWrite =>
      case FaultWrite => memoryfault := true;
      case BankWrite(bank) => banks := BankStore(banks, bank, width, pa, data);
      case device => trace := trace + [Stored(device, width, pa, data)];
    }

    method WriteData(width: Width, va: word, data: word)
      requires Valid() && !halted
      modifies this, insttlb, datatlb
      ensures State() == old(Step(State(), Write(width, va, data), true))
    {
      hide Translate, Hits, HitAddress, Stores, Sends, Alignment;
      var ok, pa := Find(datatlb, width, va);
      if ok {
        Store(width, pa, data);
      } else {
        halted := true;
      }
    }

    /** Coprocessor writes, once any instructions that follow an MMU switch have run. */
    method FlushTlbs()
      requires Valid() && !halted
      modifies insttlb, datatlb
      ensures State() == old(Step(State(), Flush, true))
    {
      insttlb.Drop();
      datatlb.Drop();
    }

    method SetMmuControl(control: word)
      requires Valid() && !halted
      modifies this`mmucontrol, insttlb, datatlb
      ensures State() == old(Step(State(), SetControl(control), true))
    {
      hide EnableBit;
      var oldstate := mmucontrol;
      mmucontrol := control;
      if EnableBit(oldstate) != EnableBit(control) {
        insttlb.Drop();
        datatlb.Drop();
      }
    }

    method SetTranslationBase(base: word)
      requires Valid() && !halted
      modifies this`translationbase
      ensures State() == old(Step(State(), SetBase(base), true))
    {
      translationbase := base;
    }

    method SetDomainAccess(domains: word)
      requires Valid() && !halted
      modifies this`domainaccesscontrol, insttlb, datatlb
      ensures State() == old(Step(State(), SetDomains(domains), true))
    {
      domainaccesscontrol := domains;
      insttlb.Drop();
      datatlb.Drop();
    }

    method SetCurrentMode(mode: word)
      requires Valid() && !halted
      modifies this`currentmode
      ensures State() == old(Step(State(), SetMode(mode), true))
    {
      hide ByteMode;
      currentmode := ByteMode(mode);
    }
  }
}
