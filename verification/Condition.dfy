/**
 Conditional execution (core/execute.inc.c): the condition table, and exactly where it
 departs from the ARM architecture.
 */
module Condition {
  import opened Words
  import opened Alu

  // ---------- the condition table ----------

  /** The sixteen condition codes, as instructions number them. */
  datatype Code = EQ | NE | CS | CC | MI | PL | VS | VC | HI | LS | GE | LT | GT | LE | AL | NV

  /** cctable: bit `f` says whether the condition holds when N, Z, C and V read as the number `f`. */
  function CcTable(cc: Code): word {
    match cc
    case EQ => 0xf0f0
    case NE => 0x0f0f
    case CS => 0xcccc
    case CC => 0x3333
    case MI => 0xff00
    case PL => 0x00ff
    case VS => 0xaaaa
    case VC => 0x5555
    case HI => 0x0c0c
    case LS => 0xf3f3
    case GE => 0xaa55
    case LT => 0x55aa
    case GT => 0xa005
    case LE => 0x5ffa
    case AL => 0xffff
    case NV => 0x0000
  }

  /** The top four bits of the status register. */
  function FlagNibble(f: Flags): (k: word)
    ensures k < 16
  {
    (if f.n then 8 else 0) | (if f.z then 4 else 0) | (if f.c then 2 else 0) | (if f.v then 1 else 0)
  }

  /** exec_condition. */
  predicate Executes(cc: Code, f: Flags) {
    Bit(CcTable(cc), FlagNibble(f))
  }

  /** What the architecture says (section A3.2 of the ARM Architecture Reference Manual). */
  predicate Passes(cc: Code, f: Flags) {
    match cc
    case EQ => f.z
    case NE => !f.z
    case CS => f.c
    case CC => !f.c
    case MI => f.n
    case PL => !f.n
    case VS => f.v
    case VC => !f.v
    case HI => f.c && !f.z
    case LS => !f.c || f.z
    case GE => f.n == f.v
    case LT => f.n != f.v
    case GT => !f.z && f.n == f.v
    case LE => f.z || f.n != f.v
    case AL => true
    case NV => false
  }

  /** The opposite conditions of a pair are opposite in the table too. */
  function Opposite(cc: Code): Code {
    match cc
    case EQ => NE
    case NE => EQ
    case CS => CC
    case CC => CS
    case MI => PL
    case PL => MI
    case VS => VC
    case VC => VS
    case HI => LS
    case LS => HI
    case GE => LT
    case LT => GE
    case GT => LE
    case LE => GT
    case AL => NV
    case NV => AL
  }

  lemma OppositesExclude(cc: Code, f: Flags)
    ensures Executes(Opposite(cc), f) <==> !Executes(cc, f)
  {
  }

  /** The table is the architecture's, except that GT and LE are wrong exactly when N and V are both set. */
  lemma TableAgreesExactly(cc: Code, f: Flags)
    ensures Executes(cc, f) == Passes(cc, f) <==> !((cc.GT? || cc.LE?) && f.n && f.v)
  {
  }
}
