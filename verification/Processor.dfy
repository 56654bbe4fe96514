/**
 The processor state as the emulator keeps it (core/processor.c, core/registers.h): live
 registers copied to and from the saved banks in place.  Each method is proved to do what
 the function of Banks it is named after says.
 */
module Processor {
  import opened Words
  import opened Banks

  lemma SaveKeepsShape(s: Banks.State, mode: nat)
    requires Valid(s)
    ensures |s.usr| == 7 && |s.fiq| == 7 && |s.irq| == 2 && |s.svc| == 2 && |s.abt| == 2 && |s.und| == 2
    ensures |s.r| == 16 && Valid(SaveCurrent(s, mode))
  {
  }

  class RegisterInfo {
    const r: array<word>
    var usr: seq<word>
    var fiq: seq<word>
    var irq: seq<word>
    var svc: seq<word>
    var abt: seq<word>
    var und: seq<word>
    var pcmask: word
    var cpsr: Psr
    var spsr: seq<Psr>
    var spsrCurrent: nat
    var vectorbase: word

    function State(): (s: Banks.State)
      reads this, r
    {
      Banks.State.State(r[..], usr, fiq, irq, svc, abt, und, pcmask, cpsr, spsr, spsrCurrent, vectorbase)
    }

    ghost predicate Ok()
      reads this, r
    {
      Valid(State())
    }

    /** registers_new: every register of every mode zero, in SVC mode, with the user's pc mask. */
    constructor ()
      ensures Ok() && fresh(r) && cpsr == Psr(SVC32, false, false, false, false, false, false, 0)
      ensures r[15] == 0 && forall m: nat, i :: 0 <= i < 15 ==> View(State(), SVC32, m, i) == 0
      ensures spsr == seq(SPSRS, _ => Psr(0, false, false, false, false, false, false, 0))
      ensures spsrCurrent == CurrentSpsr(SVC32) && vectorbase == 0 && pcmask == 0x0c00_0003
    {
      r := new word[16](_ => 0);
      usr := seq(7, _ => 0);
      fiq := seq(7, _ => 0);
      irq := seq(2, _ => 0);
      svc := seq(2, _ => 0);
      abt := seq(2, _ => 0);
      und := seq(2, _ => 0);
      pcmask := 0x0c00_0003;
      cpsr := Psr(SVC32, false, false, false, false, false, false, 0);
      spsr := seq(SPSRS, _ => Psr(0, false, false, false, false, false, false, 0));
      spsrCurrent := 3;
      vectorbase := 0;
    }

    /** The loops that copy live registers `from`.. into the start of a bank. */
    method CopyOut(from: nat, bank: seq<word>, count: nat) returns (out: seq<word>)
      requires from + count <= r.Length && count <= |bank|
      ensures out == Kept(r[..], from, bank, count)
    {
      out := bank;
      for i := from to from + count
        invariant |out| == |bank|
        invariant out == r[from..i] + bank[i - from..]
      {
        out := out[i - from := r[i]];
      }
    }

    /** The loops that copy the start of a bank into live registers `from`... */
    method CopyIn(from: nat, bank: seq<word>, count: nat)
      requires from + count <= r.Length && count <= |bank|
      modifies r
      ensures r[..] == Load(old(r[..]), from, bank[..count])
    {
      for i := from to from + count
        invariant r[..i] == old(r[..])[..from] + bank[..i - from]
        invariant r[i..] == old(r[..])[i..]
      {
        r[i] := bank[i - from];
      }
    }

    /** processor_reg_savecurrent. */
    method RegSaveCurrent(mode: nat)
      requires Ok()
      modifies this`usr, this`fiq, this`irq, this`svc, this`abt, this`und
      ensures Ok() && State() == SaveCurrent(old(State()), mode)
    {
      hide Kept, Valid;
      SaveKeepsShape(State(), mode);
      if mode == USR32 || mode == USR26 {
        usr := CopyOut(8, usr, 7);
      } else if mode == FIQ32 || mode == FIQ26 {
        fiq := CopyOut(8, fiq, 7);
      } else if mode == IRQ32 || mode == IRQ26 {
        usr := CopyOut(8, usr, 5);
        irq := CopyOut(13, irq, 2);
      } else if mode == SVC32 || mode == SVC26 {
        usr := CopyOut(8, usr, 5);
        svc := CopyOut(13, svc, 2);
      } else if mode == ABT32 {
        usr := CopyOut(8, usr, 5);
        abt := CopyOut(13, abt, 2);
      } else if mode == UND32 {
        usr := CopyOut(8, usr, 5);
        und := CopyOut(13, und, 2);
      }
    }

    /** processor_reg_restorenew. */
    method RegRestoreNew(mode: nat)
      requires Ok()
      modifies r, this`pcmask, this`spsrCurrent
      ensures Ok() && State() == RestoreNew(old(State()), mode)
    {
      hide Load;
      LoadKeepsLength(r[..], 8, usr);
      LoadKeepsLength(r[..], 8, usr[..5]);
      LoadKeepsLength(r[..], 8, fiq);
      ghost var low := Load(r[..], 8, usr[..5]);
      if mode == USR32 || mode == USR26 {
        CopyIn(8, usr, 7);
        pcmask := 0x0c00_0003;
        spsrCurrent := 0;
      } else if mode == FIQ32 || mode == FIQ26 {
        CopyIn(8, fiq, 7);
        pcmask := 0;
        spsrCurrent := 1;
      } else if mode == IRQ32 || mode == IRQ26 {
        CopyIn(8, usr, 5);
        LoadKeepsLength(low, 13, irq);
        CopyIn(13, irq, 2);
        pcmask := 0;
        spsrCurrent := 2;
      } else if mode == SVC32 || mode == SVC26 {
        CopyIn(8, usr, 5);
        LoadKeepsLength(low, 13, svc);
        CopyIn(13, svc, 2);
        pcmask := 0;
        spsrCurrent := 3;
      } else if mode == ABT32 {
        CopyIn(8, usr, 5);
        LoadKeepsLength(low, 13, abt);
        CopyIn(13, abt, 2);
        pcmask := 0;
        spsrCurrent := 4;
      } else if mode == UND32 {
        CopyIn(8, usr, 5);
        LoadKeepsLength(low, 13, und);
        CopyIn(13, und, 2);
        pcmask := 0;
        spsrCurrent := 5;
      }
    }

    /** processor_mode, from the mode the processor is in: the source asserts only that the number is 16 or more. */
    method Mode(newmode: nat)
      requires Ok() && Accepted(newmode)
      modifies this, r
      ensures Ok() && State() == SwitchMode(old(State()), newmode)
    {
      hide SaveCurrent, RestoreNew;
      RegSaveCurrent(cpsr.mode);
      RegRestoreNew(newmode);
      cpsr := cpsr.(mode := newmode);
    }

    /** processor_irq. */
    method Irq()
      requires Ok()
      modifies this, r
      ensures Ok() && State() == EnterIrq(old(State()))
      ensures TookException(old(State()), State(), 18, 2, 0x18)
    {
      hide SwitchMode, TookException, Back, VectorAt;
      IrqEntered(State());
      spsr := spsr[IRQ32 % 16 := cpsr];
      Mode(IRQ32);
      r[14] := Back(r[15]);
      cpsr := cpsr.(irqOff := true);
      r[15] := VectorAt(vectorbase, 0x18);
    }

    /** processor_swi. */
    method Swi()
      requires Ok()
      modifies this, r
      ensures Ok() && State() == EnterSwi(old(State()))
      ensures TookException(old(State()), State(), 19, 3, 0x08)
    {
      hide SwitchMode, TookException, Back, VectorAt;
      SwiEntered(State());
      spsr := spsr[SVC32 % 16 := cpsr];
      Mode(SVC32);
      r[14] := Back(r[15]);
      cpsr := cpsr.(irqOff := true);
      r[15] := VectorAt(vectorbase, 0x08);
    }

    /** The end of exec_dp for an instruction that has computed `rd` for r15, with the S bit. */
    method WritePcWithStatus(rd: word)
      requires Ok() && (spsrCurrent != 0 ==> spsrCurrent < SPSRS && Accepted(spsr[spsrCurrent].mode))
      modifies this, r
      ensures Ok() && State() == ReturnTo(old(State()), rd)
    {
      hide SwitchMode, Ahead;
      if spsrCurrent != 0 {
        var oldspsr := spsr[spsrCurrent];
        Mode(oldspsr.mode);
        cpsr := oldspsr;
      }
      r[15] := Ahead(rd);
    }
  }

  lemma LoadKeepsLength(live: seq<word>, at: nat, bank: seq<word>)
    requires at + |bank| <= |live|
    ensures |Load(live, at, bank)| == |live| && bank[..|bank|] == bank
  {
  }
}
