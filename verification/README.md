# ARMphetamine, modelled and proved

ARMphetamine emulates an ARM machine.  It has an interpreter, a memory management unit
with a one-entry software TLB for each of data and instructions, and a recompiler that
goes from ARM code to an intermediate code called ph2 and from there to x86 registers.
Almost everything in it is a fast form of something simple.  This project models the fast
forms as the source writes them and proves them against the simple ones.

| file | models | main results |
|---|---|---|
| `Words`, `Alu`, `MultiWord` | words, the flag macros | the bitwise formulas are exact; multi-word chains are exact at any length |
| `Arm`, `Interpreter`, `Results`, `Condition`, `LongMultiply` | the ARM manual (DDI 0100) as reference; the interpreter's methods | the interpreter is the architecture, except on exactly the listed inputs; what both leave, by truth tables and exact numbers |
| `Ph2`, `Translator`, `Chunk`, `TranslationProof`, `Refinement` | ph2, its meaning, the translator with its register cache | translation refines interpretation |
| `FlagDemand`, `FlagCycles`, `FlagPruning`, `ConditionResults`, `BlockOrder` | the backward flag pass | it ends exactly when no ring of blocks leaks demands; it aborts on exactly the undecidable conditions, else stores exactly the wanted flags; exactly when loops leave nothing unmet, on every path; then meaning and branches are preserved |
| `Digraph`, `DepthFirst`, `BranchThreading`, `ThreadingEnds`, `Culling` | the other passes over the block graph | numbering, predecessor lists, threading and culling are right on every graph; exactly when the threading loop ends |
| `LiveRanges`, `LinearScan`, `Allocation`, `PlacedExecution`, `BlockAllocation` | spans, aliasing, linear scan | the allocation spills exactly when it must, is safe exactly when moves let their operands die, and harmless exactly when only copies join what still lives; code run in its homes then means the same |
| `Mmu`, `Descriptors`, `TlbRuns`, `Accesses`, `MemoryUnit` | page walk, TLB, LART's physical map | the TLB is transparent over whole runs; what a walk and an access do, by raw bits |
| `Banks`, `Processor`, `BlockTransfer` | banked registers, exceptions, LDM and STM with and without the S bit | banks refine a flat file, exactly while switches keep it; entry and return, STM and LDM are inverse |
| `LinkedList`, `PriorityQueue`, `HashTable`, `Strng` | the containers beneath | list, heap, map, and split against join |

Code that changes state in place is modelled by classes and methods (`Cpu`, `Chunk`,
`FlagPass`, `Branches`, `DepthFirstSearch`, `Allocator`, `MemInfo`, `RegisterInfo`,
`Machine`, `List`, `Queue`, `Table`, `Buffer`).  Each method's contract gives the whole new
state, usually as a function of the old one; the theorems are about those functions.

## Where code and architecture part

These are results.  In each case the model does what the code does, and a theorem says
exactly when that is right.

- Shifts by register: the carry of LSL by 32 and of ROR by 0 (`Interpreter.ShiftAgreesExactly`).
- A rotated immediate's carry is written before ADC, SBC and RSC read it
  (`Interpreter.InterpreterAgreesExactly`); translated code does not do so, and agrees with
  the interpreter exactly where that makes no difference (`Refinement.TranslationAgreesExactly`).
- GT and LE when N and V are both set (`Condition.TableAgreesExactly`).
- Signed long multiplication of negative operands (`LongMultiply.SignedMultiplyExactly`).
- Permissions are always checked as for a privileged mode (`Mmu.UserChecksExactly`).
- A TLB match does not notice a misaligned address (`TlbRuns.HitAgreesExactly`).
- Modes without a case in the bank switch, System mode among them, which the assertion in
  processor_mode lets through (`Banks.SwitchKeepsExactly`; `Banks.SystemModeLosesWrite` is such a run).
- Saved status in ABT and UND modes (`Banks.SavedStatusFoundExactly`).
- An interrupt taken in IRQ mode, or a SWI in SVC mode, loses r14, as on a real ARM; in a mode
  without a case more is lost (`Banks.IrqReturnsExactly`, `Banks.SwiReturnsExactly`).
- An LDM or STM with S set and write-back writes the user's base register, though it read the
  mode's (`BlockTransfer.WritebackReachesBaseExactly`); the source's comment at
  core/execute.inc.c:1437 wonders about this.
- Aliasing across a ph2 move that is not the last use of its operand
  (`Allocation.AllocationIsSafeExactly`), which does harm only when something else joins them
  (`Allocation.AllocationIsHarmlessExactly`); two ARM instructions are enough
  (`BlockAllocation.MoveIsOverwritten`, `BlockAllocation.MoveRunsWrongExactly`).
- A block that branches to itself does not serve its own next round
  (`FlagDemand.AllPathsMetExactly`; `FlagDemand.LoopIsMissed` is such a block).
- `jt_list_removehead` leaves the new head pointing back at the old one
  (`LinkedList.List.RemoveHead`).

Two loops of the recompiler need not end, and for both there is a condition on the graph that
can be checked before: the flag pass, on rings of blocks that leak demands
(`FlagCycles.PassEndsExactly`; `FlagCycles.PairNeverEnds` is such a ring), and branch threading,
on decided walks that go round (`ThreadingEnds.LoopEndsExactly`).  What each computes is proved
on every graph on which it ends.

The comment on the choice of a span to spill (dynarec/palloc.c:490) promises the furthest end
point; the code takes the last active span that ends later than the new one, and so does the
model (`LinearScan.Allocator.FindSpill`).  The design document speaks of 256 ph2 registers; the code numbers temporaries in sixteen
bits, and the model follows the code (`Refinement.ShortBlocksFit` says what that allows).

## Model

| member | source | states |
|---|---|---|
| `Alu.AddFlagsExact` | `core/execute.h:17-36` | ADDFLAGS with ZNFLAGS gives, for every operand pair and carry in, the carry and overflow of the exact unsigned and signed sum, and the sign and zero of the result |
| `Alu.SubFlagsExact` | `core/execute.h:24-36` | SUBFLAGS with ZNFLAGS gives "no borrow" and the signed overflow of the exact difference, for SUB, SBC and the reversed forms |
| `Words.AddWraps` | `core/execute.h:17-22` | the word the addition leaves is the exact sum, or 2^32 less |
| `MultiWord.AddChainExact` | `core/execute.inc.c:451-463` | an ADDS/ADCS chain over any number of words leaves the exact sum, the last C being the bit above it |
| `MultiWord.AddChainOverflow` | `core/execute.inc.c:451-463` | the last V of the chain is set exactly when the signed sum does not fit as many words |
| `MultiWord.SubChainExact` | `core/execute.inc.c:437-470` | a SUBS/SBCS chain of any length leaves the exact difference, the last C meaning that nothing was borrowed |
| `MultiWord.SubChainOverflow` | `core/execute.inc.c:437-470` | the last V of the chain is set exactly when the signed difference does not fit as many words |
| `Words.EorBits` | `core/execute.inc.c:431-527` | bit k of an exclusive or is set if and only if just one operand's is |
| `Words.AndBits` | `core/execute.inc.c:425-502` | bit k of an and is set if and only if both operands' are |
| `Words.OrrBits` | `core/execute.inc.c:557-561` | bit k of an or if and only if one operand's is |
| `Words.NotBits` | `core/execute.inc.c:569-580` | bit k of a complement if and only if the operand's is not |
| `Words.LslBits` | `core/execute.inc.c:325-373` | bit k after a left shift by n is the operand's bit k - n, and clear below n |
| `Words.LsrBits` | `core/execute.inc.c:333-381` | after a right shift it is bit k + n, and clear at the top |
| `Words.AsrBits` | `core/execute.inc.c:341-395` | after an arithmetic one it is bit k + n, and the sign at the top |
| `Words.RorBits` | `core/execute.inc.c:351-412` | after a rotation it is bit k + n, counted round the word |
| `Words.RrxBits` | `core/execute.inc.c:397-405` | after a rotation through the carry it is bit k + 1, and the carry at the top |
| `Words.TimesValue` | `core/execute.inc.c:930-954` | a product's value is the product of the operands' values modulo 2^32 |
| `Interpreter.ShiftAgreesExactly` | `core/execute.inc.c:315-363` | the interpreter's own formulas for shifts by register always give the architecture's operand, and its carry except for LSL by 32 of a word with bit 0 set, and ROR by a register whose low byte is 0 when the carry differs from the top bit; exactly then they do not |
| `Interpreter.InterpreterAgreesExactly` | `core/execute.inc.c:272-954` | for every data-processing or multiply instruction that the model covers, r15 as an operand included, and every state, the interpreter makes the architecture's step if and only if the state is not one of those that `Deviates` lists |
| `Interpreter.Cpu.RegisterShift` | `core/execute.inc.c:315-363` | operand and carry of a shift by register, C written only when the operation is to take it |
| `Interpreter.Cpu.ImmediateShift` | `core/execute.inc.c:364-421` | operand and carry of a shift by immediate are the architecture's, amount 0 included |
| `Interpreter.Cpu.Arithmetic` | `core/execute.inc.c:437-555` | result and macro flags of each arithmetic operation are those of the exact sum or difference |
| `Interpreter.Cpu.Compute` | `core/execute.inc.c:423-582` | the operation switch and ZNFLAGS: result, and all four flags if S is set, none otherwise; what these are bit by bit and as numbers is `Results.LogicExactly` and `Results.ArithmeticExactly` |
| `Interpreter.Cpu.ExecDp` | `core/execute.inc.c:272-606` | all of r0-r15 and NZCV after an instruction with a shifted register operand |
| `Interpreter.Cpu.ExecDpImm` | `core/execute.inc.c:608-819` | all of r0-r15 and NZCV after one with a rotated immediate, the early write of C included |
| `Interpreter.Cpu.ExecMul` | `core/execute.inc.c:930-954` | all of r0-r15 and NZCV after MUL and MLA |
| `Results.AmountOperand` | `core/execute.inc.c:364-421` | an operand field with shift amount, shift type and register in their bits names just these |
| `Results.RegisterOperand` | `core/execute.inc.c:315-363` | so does one with a shift by register |
| `Results.ShiftByImmBits` | `core/execute.inc.c:364-421` | every bit of a shift by an immediate, LSR and ASR reading amount 0 as 32 and ROR as RRX |
| `Results.ShiftByImmCarry` | `core/execute.inc.c:364-421` | its carry is the last bit dropped, and the old carry for LSL by nothing |
| `Results.ShiftByRegBits` | `core/execute.inc.c:315-363` | every bit of a shift by the low byte of a register, amounts up to 255 |
| `Results.ShiftByRegCarry` | `core/execute.inc.c:315-363` | its carry by the architecture |
| `Results.RotatedImmBits` | `core/execute.inc.c:632-634` | every bit of a rotated byte, and its carry |
| `Results.CoveredExactly` | `core/execute.inc.c:272-954` | the instructions covered, by their encoding: r15 is no destination, comparisons set S, no r15 with a shift by register |
| `Results.LogicExactly` | `core/execute.inc.c:423-582` | AND, EOR, TST, TEQ, ORR, MOV, BIC and MVN by their truth tables, in interpreter and architecture: every bit of the result, N as bit 31, Z if no bit is set, V kept; a comparison leaves its register |
| `Results.LogicCarry` | `core/execute.inc.c:423-582` | the architecture's C after one of these is the shifter's |
| `Results.ArithmeticExactly` | `core/execute.inc.c:437-555` | the eight arithmetic operations by their exact numbers: the result is that number modulo 2^32, C the carry out of a sum or the absence of a borrow, V that the signed number does not fit |
| `Results.MultiplyExactly` | `core/execute.inc.c:930-954` | MUL and MLA, in interpreter and architecture: the exact product, with the addend if there is one, modulo 2^32; N and Z from it, C and V kept |
| `Results.OthersStay` | `core/execute.inc.c:584-606` | no other register changes, r15 goes on by 4, and without S no flag changes |
| `Condition.TableAgreesExactly` | `core/execute.inc.c:59-78` | the condition table gives the architecture's answer for every condition and flags, except GT and LE with N and V both set |
| `Condition.OppositesExclude` | `core/execute.inc.c:61-67` | of a condition and its opposite exactly one executes, in the wrong entries too |
| `ConditionResults.ConditionNumbers` | `core/execute.inc.c:59-78` | each of the sixteen condition numbers by the flags it tests, every odd one the opposite of the one before |
| `LongMultiply.ProductsDiffer` | `core/execute.inc.c:960-1008` | the signed product of two registers is the unsigned one less a stated multiple of 2^32 |
| `LongMultiply.SignedMultiplyExactly` | `core/execute.inc.c:960-1008` | SMULL and SMLAL, computed without sign, are right if and only if neither operand is negative, one is zero, or both are negative and add up to 2^32 |
| `Chunk.Chunk.constructor` | `dynarec/pheta.c:62-96` | a new block: nothing cached, nothing dirty |
| `Chunk.Chunk.Append` | `dynarec/pheta.c:280-422` | one instruction without result appended; temporaries and cache as before |
| `Chunk.Chunk.TwoOperand` | `dynarec/pheta.c:280-422` | the instruction appended with the next temporary as its result, its number cut to sixteen bits in the field |
| `Chunk.Chunk.BracketedTwo` | `dynarec/pheta.c:1392-1400` | FEXPECT, operation, FCOMMIT in that order when flags are wanted |
| `Chunk.Chunk.Fetch` | `dynarec/pheta.c:999-1009` | the register's cached temporary, fetched and cached on first use |
| `Chunk.Chunk.Commit` | `dynarec/pheta.c:1011-1016` | the register is cached in the temporary and dirty |
| `Chunk.Chunk.Sync` | `dynarec/pheta.c:1018-1036` | each dirty cached register is committed and forgotten, in register order |
| `Chunk.Chunk.Shift` | `dynarec/pheta.c:1374-1502` | the code of all immediate shifts, amount 0 included |
| `Chunk.Chunk.Operation` | `dynarec/pheta.c:1533-1780` | the code of the sixteen operations, none for a comparison without S, and which temporary holds the result |
| `Chunk.Chunk.TranslateBlock` | `dynarec/pheta.c:999-1926` | the code and cache of a whole straight-line block, with write-backs where asked and at the end |
| `TranslationProof.FetchCorrect` | `dynarec/pheta.c:999-1009` | after a fetch the temporary holds the register's current ARM value, and no register, flag or earlier temporary has changed |
| `TranslationProof.CommitCorrect` | `dynarec/pheta.c:1011-1016` | a commit to the cache changes that ARM register and nothing else |
| `TranslationProof.SyncedRegisters` | `dynarec/pheta.c:1018-1036` | after the write-back the register file holds the current value of every register r0-r14 |
| `TranslationProof.ShiftCorrect` | `dynarec/pheta.c:1374-1502` | every immediate shift leaves the architecture's operand in its temporary, and its carry in C when asked to |
| `TranslationProof.GutsCorrect` | `dynarec/pheta.c:1533-1801` | the code of an operation performs it: destination and flags as in the ARM manual, everything else kept |
| `TranslationProof.DpCorrect` | `dynarec/pheta.c:1374-1506` | the code of a data-processing instruction with immediate shift is one ARM step |
| `TranslationProof.DpImmCorrect` | `dynarec/pheta.c:1508-1531` | the code of one with a rotated immediate is one ARM step, the carry taken from the byte included |
| `TranslationProof.MulCorrect` | `dynarec/pheta.c:1883-1926` | the code of MUL and MLA is one ARM step |
| `TranslationProof.TranslationCorrect` | `dynarec/pheta.c:999-1926` | for every straight-line block, with write-backs anywhere, running its ph2 code and the final write-back leaves r0-r14 and NZCV as executing the instructions one at a time |
| `Refinement.TranslationRefinesInterpretation` | `dynarec/pheta.c:999-1926` | the same against the interpreter, for every block and every start from which it reaches no instruction in a state the interpreter itself gets wrong |
| `Refinement.TranslationAgreesExactly` | `dynarec/pheta.c:999-1926` | for every translatable instruction and every state, its code with the write-back leaves r0-r14 and NZCV as the interpreter if and only if the interpreter does not deviate from the architecture there |
| `Refinement.OnlyExcludedDeviate` | `dynarec/pheta.c:1508-1531` | among translatable instructions that is flag-setting ADC, SBC or RSC of a rotated immediate whose rotated-out bit is not the carry |
| `Refinement.ExcludedFormDiffers` | `dynarec/pheta.c:1508-1531` | such a one: translated ADCS r0, r1, #0x80000000 with the carry clear, from any registers, is not what the interpreter does |
| `Refinement.ShortBlocksFit` | `dynarec/pheta.c:280-422` | every block of up to 7281 items stays within sixteen-bit temporaries |
| `Ph2.FieldExactly` | `dynarec/pheta.c:280-422` | a field of an instruction keeps a temporary's number modulo 65536 |
| `FlagDemand.FlagPass.FixupInner` | `dynarec/pheta.c:800-894` | for every call that ends: it aborts or returns as the recursion does; if it returns, every demand handed in or raised in the block is met on every way back without a step from a block to itself; nothing but `need` and `pred` changes, and these only grow, by what is wanted |
| `FlagDemand.FlagPass.FixupFlags` | `dynarec/pheta.c:896-916` | on every graph on which the pass ends, by return or abort: it aborts if and only if a condition is wanted after an FCOMMIT whose operation lacks flags of it; if it does not, every FENSURE, SYNC and closing condition is met on every way back without a step from a block to itself |
| `FlagDemand.DemandsMetOnEveryPath` | `dynarec/pheta.c:800-916` | if the self-looping blocks leave nothing to meet, then on every path to a demand, round them too, the last FCOMMIT on the path that can produce it stores it |
| `FlagCycles.PassEndsExactly` | `dynarec/pheta.c:800-916` | unless the pass fails, it ends if and only if no ring of blocks, each a predecessor of the one before, leaks: every block of it leaves something pending at its top, raised within the last round, or brought in and served by no block of the ring |
| `FlagCycles.LeaklessEnds` | `dynarec/pheta.c:800-916` | without such a ring the pass ends on every graph, in an abort or not, and its recursion is never deeper than 32 calls a block |
| `FlagCycles.EndsWithinBoundExactly` | `dynarec/pheta.c:800-916` | on every graph at all, if the pass ends then within that depth |
| `FlagCycles.HandedHolds` | `dynarec/pheta.c:806-868` | a flag or predicate is pending at the top of a block if and only if something in it raises it and nothing above serves it, or it entered and nothing in the block serves it |
| `FlagCycles.LeaksGoesOn` | `dynarec/pheta.c:870-891` | a leaking ring gives a block whose first call goes deeper than any bound |
| `FlagCycles.AbortComesFirst` | `dynarec/pheta.c:843-847` | with a leaking ring an abort in an earlier block still ends the pass: three blocks on which it does |
| `FlagCycles.RankedEnds` | `dynarec/pheta.c:800-916` | a graph without cycles, blocks that branch to themselves aside, has no such ring, so the pass ends |
| `FlagCycles.PairNeverEnds` | `dynarec/pheta.c:870-891` | two blocks that branch to each other, one of which needs a flag neither produces, are such a ring, and no depth is enough, since the block tag handed down is never looked at |
| `FlagDemand.AllPathsMetExactly` | `dynarec/pheta.c:800-916` | after the pass that holds of all paths if and only if, in the graph it began with, what is wanted at the top of a block that branches to itself is wanted after the block's last producer of it as well |
| `FlagDemand.LoopIsMissed` | `dynarec/pheta.c:879-888` | it does fail: in the block FENSURE C, FCOMMIT C that branches to itself, whatever else the pass leaves, the FCOMMIT does not store the carry the next round needs |
| `FlagDemand.LoopIsTaken` | `dynarec/pheta.c:800-916` | that block is one the pass accepts and does not abort on |
| `FlagDemand.StoresExactlyWanted` | `dynarec/pheta.c:800-916` | an FCOMMIT stores a flag or condition it produces if and only if something downstream wants it before another FCOMMIT produces it; an FWRITE, which produces its flags as well, is passed over, as in the source |
| `FlagPruning.PassPreservesMeaning` | `dynarec/pheta.c:800-916` | along every path, if all paths' demands are met, code whose FCOMMITs store only what the pass selected computes the same temporaries, registers and demanded flags as code that stores everything |
| `ConditionResults.BranchesAgree` | `dynarec/pheta.c:800-916` | at the end of every path the condition result that the last FCOMMIT stores, computed in the pruned run, is the condition on the flags the full run ends with, so both take the same branch, given that no FWRITE is the last in its block |
| `ConditionResults.TranslationCoversWrites` | `dynarec/pheta.c:1374-1801` | in every translated block an FCOMMIT follows each FWRITE |
| `ConditionResults.FlagsDecide` | `dynarec/pheta.c:19-37` | the flags listed for a condition decide it |
| `ConditionResults.FlagsListedExactly` | `dynarec/pheta.c:19-37` | and no others are: a flag is listed if and only if for some flags turning it round turns the condition round |
| `ConditionResults.FailsExactly` | `dynarec/pheta.c:836-847` | so the pass aborts if and only if a condition is wanted after an FCOMMIT without a flag the condition depends on |
| `FlagDemand.NormalExactly` | `dynarec/pheta.c:806` | a closing predicate of AL, NV or 255 demands nothing, and every other is pending as it is |
| `FlagPruning.TranslationIsGuarded` | `dynarec/pheta.c:1374-1801` | every translated block ensures C before each ADC, SBC or RRX, so the pass may be applied to it |
| `Ph2.ExecAppend` | `docs/html/design2.html:87-121` | the meaning of ph2 code is sequential: an instruction appended acts on what the code before it left |
| `DepthFirst.DepthFirstSearch.constructor` | `dynarec/pheta.c:540-548` | every block white |
| `DepthFirst.DepthFirstSearch.Visit` | `dynarec/pheta.c:558-574` | from a white block: it ends black, blocks seen before keep their marks and times, and all invariants of the search hold |
| `DepthFirst.DepthFirstSearch.VisitAll` | `dynarec/pheta.c:540-556` | every block ends black; the recursion is measured by the white blocks |
| `DepthFirst.DiscoverKeeps` | `dynarec/pheta.c:558-563` | discovering a block keeps all invariants of the search |
| `DepthFirst.FinishKeeps` | `dynarec/pheta.c:565-574` | finishing one does too |
| `DepthFirst.TimesArePermutation` | `dynarec/pheta.c:540-574` | discovery and finishing times are a permutation of 1..2n |
| `DepthFirst.NestedOrDisjoint` | `dynarec/pheta.c:540-574` | the intervals of two blocks are disjoint or one is inside the other |
| `DepthFirst.OpenReaches` | `dynarec/pheta.c:558-574` | a block still open when another is discovered has a path to it |
| `DepthFirst.FinishRanksExactly` | `dynarec/pheta.c:540-574` | finishing times drop along every edge if and only if the graph has no cycle |
| `DepthFirst.FinishRanksButLoopsExactly` | `dynarec/pheta.c:540-574` | they drop along every edge between different blocks if and only if the graph has no cycle but blocks that branch to themselves |
| `DepthFirst.BackEdgeCycle` | `dynarec/pheta.c:540-574` | an edge along which they do not drop lies on a cycle, which is given |
| `DepthFirst.PredecessorLists.Record` | `dynarec/pheta.c:640-683` | the edge is appended to its target's list, and no other list changes |
| `DepthFirst.PredecessorLists.Predecessor` | `dynarec/pheta.c:635-683` | every block's list is exactly the one the edges give |
| `DepthFirst.PredecessorsExact` | `dynarec/pheta.c:635-683` | each edge is listed once at its target and nothing else is |
| `DepthFirst.PredecessorsAreEdges` | `dynarec/pheta.c:635-683` | a block is in a list if and only if there is an edge from it |
| `BlockOrder.FlagPassIsRanked` | `dynarec/pheta.c:540-683` | on a graph without cycles, blocks that branch to themselves aside, the predecessor lists and depth-first times rank the flag pass's graph, so the pass ends within the bound |
| `BranchThreading.Branches.ThreadTrue` | `dynarec/pheta.c:928-950` | the rewrite of a true branch, and whether one was made |
| `BranchThreading.Branches.ThreadFalse` | `dynarec/pheta.c:952-967` | the rewrite of a false branch, and whether one was made |
| `BranchThreading.Branches.OptimiseTransitiveBranch` | `dynarec/pheta.c:918-970` | whenever the source's loop ends, it ends with no rewrite left to make, and the work done from every block under all conditions is unchanged, going round empty blocks for ever included |
| `BranchThreading.RewriteTrueKeeps` | `dynarec/pheta.c:928-950` | a rewrite on the true side keeps, on every graph, where control from every block does its next work, if anywhere |
| `BranchThreading.RewriteFalseKeeps` | `dynarec/pheta.c:952-967` | so does one on the false side |
| `BranchThreading.RewriteTrueShrinks` | `dynarec/pheta.c:928-950` | each rewrite on the true side makes a weight of the whole graph strictly smaller |
| `BranchThreading.RewriteFalseShrinks` | `dynarec/pheta.c:952-967` | so does each on the false side |
| `BranchThreading.SameTrace` | `dynarec/pheta.c:918-970` | for every start and every sequence of conditions, the sequence of non-empty blocks executed is unchanged |
| `BranchThreading.TraceExactly` | `dynarec/pheta.c:918-970` | that sequence: where control comes to work it is done and control goes on under the next condition |
| `BranchThreading.RankExists` | `dynarec/pheta.c:918-970` | if no cycle consists of empty blocks only, the graph has a ranking |
| `BranchThreading.RankedHasNoEmptyCycle` | `dynarec/pheta.c:918-970` | and conversely |
| `BranchThreading.NoEmptyCycleEnds` | `dynarec/pheta.c:918-970` | on such a graph the loop ends |
| `BranchThreading.EmptyLoopIsIdle` | `dynarec/pheta.c:928-950` | an empty block that branches to itself whatever the flags takes over its own branch: a change is reported and nothing changes |
| `BranchThreading.EmptyLoopNeverEnds` | `dynarec/pheta.c:918-970` | so with such a block in the graph the loop never ends: after any number of passes the next still reports a change |
| `ThreadingEnds.LoopEndsExactly` | `dynarec/pheta.c:918-970` | on graphs on which the sides that AL and NV blocks never take meet no unconditional empty block and do not leave: the loop ends if and only if no walk out of a block, decided by one outcome of a condition, goes round empty blocks for ever, a conditional block's branch straight to itself not counted |
| `ThreadingEnds.LoopEndsExactlyAfter` | `dynarec/pheta.c:918-970` | the same of any graph that some passes make such a one, of what they leave |
| `ThreadingEnds.LoopEndsExactlyEverywhere` | `dynarec/pheta.c:918-970` | on every graph at all the loop ends if and only if some passes make it such a one on which no walk goes round |
| `ThreadingEnds.ForeverExactly` | `dynarec/pheta.c:918-970` | a decided walk goes round for ever if and only if it is not over after one step more than there are blocks |
| `ThreadingEnds.BlockKeepsRound` | `dynarec/pheta.c:925-968` | rewriting a block changes nothing in whether any walk goes round |
| `ThreadingEnds.RoundlessEnds` | `dynarec/pheta.c:918-970` | if none does, the number of passes is at most the decided steps ahead of all blocks |
| `ThreadingEnds.IdleNeverEnds` | `dynarec/pheta.c:918-970` | on every graph: with any rewrite, of either side, that is reported and leaves the graph as it was, the loop never ends |
| `ThreadingEnds.PlainIsQuiet` | `dynarec/pheta.c:918-970` | graphs without NV whose AL blocks have no false successor are of the first kind |
| `ThreadingEnds.LateGoesRound` | `dynarec/pheta.c:918-970` | outside it the order of visits counts: on these two blocks no walk goes round at first, yet the loop never ends |
| `ThreadingEnds.EarlyComesToRest` | `dynarec/pheta.c:918-970` | and on these two one does, yet the loop ends |
| `Culling.Chunk.MarkSuccessors` | `dynarec/pheta.c:975-984` | afterwards exactly the root and the successors of listed blocks are not white |
| `Culling.Chunk.CullUnusedNodes` | `dynarec/pheta.c:972-997` | the list holds exactly the marked blocks in their order, and is well formed |
| `Culling.KeptExactly` | `dynarec/pheta.c:986-996` | a block is left if and only if it was listed and marked |
| `Culling.ReachableSurvives` | `dynarec/pheta.c:972-997` | every block reachable from the root survives |
| `Culling.SuccessorsSurvive` | `dynarec/pheta.c:972-997` | every successor of a surviving block survives |
| `Culling.SurvivorsClosed` | `dynarec/pheta.c:972-997` | the survivors contain the root and are closed under successors |
| `LiveRanges.CloseIsIdempotent` | `dynarec/palloc.c:310-316` | following aliases ends, at a temporary that is its own representative |
| `LiveRanges.FindSpans` | `dynarec/palloc.c:318-383` | one span for each definition, in order, from its line to the last line that reads any temporary of its class |
| `LiveRanges.LastUseIsLast` | `dynarec/palloc.c:346-364` | a span's end reads the class unless it is empty, and no later line does |
| `LiveRanges.ReverseTable` | `dynarec/palloc.c:213-236` | the table holds the last span of each temporary |
| `LiveRanges.SrcDestAlias` | `dynarec/palloc.c:127-236` | the table of places after aliasing, line by line |
| `LiveRanges.AliasingJoins` | `dynarec/palloc.c:127-211` | every alias points to a temporary defined earlier, and was made where the first operand dies, or by a move |
| `LiveRanges.MoveAliasedExactly` | `dynarec/palloc.c:142-157` | a move's result is aliased if and only if it has no place yet and the operand is no constant |
| `LiveRanges.RootDefinedFirst` | `dynarec/palloc.c:310-316` | a class's representative is defined before its other members |
| `LiveRanges.OperandDies` | `dynarec/palloc.c:127-211` | if every move that aliases is the last use of its operand, an aliased temporary is computed on the line where another member of its class, its operand, is last read |
| `LiveRanges.SameClassTakesTurns` | `dynarec/palloc.c:127-236` | then of two temporaries of one class one is done before the other is defined, or on that line, where the other is computed from it |
| `LiveRanges.AliasingIsSafeExactly` | `dynarec/palloc.c:127-236` | aliasing is safe, all classes being live in turns like that, if and only if every move that aliases is the last use of its operand |
| `LiveRanges.ClassSpanCovers` | `dynarec/palloc.c:318-383` | the interval the second run finds for a class covers the spans of all its members |
| `LinearScan.Allocator.constructor` | `dynarec/palloc.c:553-572` | no register in use, ESP and EBP reserved, nothing active |
| `LinearScan.Allocator.Expire` | `dynarec/palloc.c:439-460` | no span that ended before this one starts is left active, every one in a register that reaches it is, and exactly their registers are in use |
| `LinearScan.Allocator.FindFree` | `dynarec/palloc.c:462-482` | exactly the lowest free register is claimed; the source's assertion that there is one holds |
| `LinearScan.Allocator.FindSpill` | `dynarec/palloc.c:485-504` | of the active spans in registers, the last in the array that ends later than this one, or the first if none does; the source's assertion that there is one holds |
| `LinearScan.ChosenOnce` | `dynarec/palloc.c:485-504` | that rule leaves exactly one choice |
| `LinearScan.Allocator.SpillOne` | `dynarec/palloc.c:483-523` | exactly the chosen span gives up its register, to the new one, and gets its own slot; every invariant is kept |
| `LinearScan.Allocator.Place` | `dynarec/palloc.c:413-525` | one span placed, in a register if it had no place; of the others at most registers become slots; every invariant is kept |
| `LinearScan.Allocator.ScanBlock` | `dynarec/palloc.c:405-551` | the spans of a block are placed in the order of their starts |
| `LinearScan.Allocator.LinearScan` | `dynarec/palloc.c:405-572` | spans left with a register hold one other than ESP and EBP, overlapping ones different ones; `regno` counts the registers in use; a span is spilled only if seven were live at once |
| `LinearScan.CrowdedSpills` | `dynarec/palloc.c:405-525` | if seven spans are live on one line, one of them has no register |
| `LinearScan.SpillsExactlyWhenCrowded` | `dynarec/palloc.c:405-525` | so spans are spilled if and only if seven are live on one line |
| `Allocation.OtherClassesApart` | `dynarec/palloc.c:127-572` | temporaries of different classes with one register are never live on one line |
| `Allocation.AllocationIsSafe` | `dynarec/palloc.c:127-572` | if every move that aliases is the last use of its operand, two temporaries left with one host register or slot take turns: one is done before the other is defined, or on that line, where the other is computed from it |
| `Allocation.AllocationIsSafeExactly` | `dynarec/palloc.c:127-572` | the whole allocation is safe in that sense if and only if every move that aliases is the last use of its operand |
| `Allocation.AllocationIsHarmlessExactly` | `dynarec/palloc.c:127-572` | nothing but a copy is put in the home of another temporary that is still live, if and only if nothing but a move's result joins a class of which another member is still live |
| `Allocation.PlacedIsClassSpan` | `dynarec/palloc.c:318-525` | what linear scan places are exactly the class intervals of the classes without a place |
| `Allocation.AllocationIsComplete` | `dynarec/palloc.c:405-525` | aliases and constants stay as settled; every other class has a register, or its own slot if seven classes are live on some line |
| `BlockAllocation.InitialAllocation` | `dynarec/palloc.c:13-71` | constants have their place and nothing else has one |
| `Allocation.AllocateRegisters` | `dynarec/recompile.c:46-61` | spans, aliasing, spans again and linear scan, in the recompiler's order, end in a complete allocation, safe if and only if every move that aliases is the last use of its operand, and harmless if and only if nothing but copies joins classes still live |
| `BlockAllocation.TranslationIsNumbered` | `dynarec/recompile.c:15-61` | every translated block defines each temporary once, before its uses and above its operands, as the allocator assumes; spent temporaries are read again only if the ARM code moves an unshifted register |
| `BlockAllocation.OtherMovesDie` | `dynarec/recompile.c:15-61` | in a block without MOV of an unshifted register every move that aliases is the last use of its operand: moves of constants and of shifted registers do no harm |
| `BlockAllocation.PlainMovExactly` | `dynarec/recompile.c:15-61` | such a MOV is by its encoding Rm shifted left by 0, and no other instruction |
| `BlockAllocation.AllocateBlock` | `dynarec/recompile.c:15-61` | every translated block is given registers completely, safely if and only if every move that aliases is the last use of its operand, as in every block without MOV of an unshifted register, and harmlessly if and only if nothing but copies joins classes still live |
| `PlacedExecution.HarmlessAllocationPreservesMeaning` | `dynarec/recompile.c:15-61` | ph2 code run with every temporary in its final register or slot commits the same ARM registers and flags as the code itself, if the allocation is harmless, copies that live on in one home with what they copy included |
| `PlacedExecution.SafeIsHarmless` | `dynarec/recompile.c:15-61` | a safe allocation is harmless |
| `PlacedExecution.CopiesAreHarmless` | `dynarec/recompile.c:15-61` | so is one in which every aliased result is a copy, whatever lives on |
| `PlacedExecution.SafeAllocationPreservesMeaning` | `dynarec/recompile.c:15-61` | a safe allocation preserves meaning in the same sense |
| `BlockAllocation.AllocatedBlockIsCorrect` | `dynarec/recompile.c:15-61` | from ARM to host registers: so run, a block harmlessly allocated leaves r0-r14 and NZCV as its instructions one at a time |
| `BlockAllocation.MoveIsOverwritten` | `dynarec/recompile.c:15-61` | MOV r1, r0; ADD r2, r0, r0 is not allocated safely: the sum gets the register of the copy while the copy is still to be stored |
| `BlockAllocation.MoveRunsWrongExactly` | `dynarec/recompile.c:15-61` | run in its homes, whatever the register, that block leaves r0 + r0 in r1, which is right if and only if r0 is zero |
| `Mmu.UserChecksExactly` | `core/memory.c:300-324` | the permission decision, always taken as for a privileged mode, is the architecture's if and only if the mode is privileged or the two agree |
| `Descriptors.PermissionRows` | `core/memory.c:302-322` | all sixteen rows of the permission table by the two AP bits, R and S, for users and for privileged modes |
| `Descriptors.SectionTranslated` | `core/memory.c:500-539` | a section by its raw bits: refused for domain bits 0 and 2, unchecked for 3, and for 1 checked against the row of its AP bits with S and R; the descriptor's upper twelve bits with the address's lower twenty, from the table word at base | (address >> 20) << 2 |
| `Descriptors.LargePageTranslated` | `core/memory.c:385-433` | a large page the same, by the AP bits of the quarter in which the address lies, over 64K, or over 16K when a client's quarters differ |
| `Descriptors.SmallPageTranslated` | `core/memory.c:435-488` | a small page, over 4K or 1K |
| `Descriptors.OffTranslated` | `core/memory.c:326-332` | with the MMU off, the address itself with all permissions, over 16MB |
| `Descriptors.StopsUnmapped` | `core/memory.c:352-374` | a walk ends without a page for an unreadable table word, a fault or fine-table descriptor, and a fault or tiny page in a domain that is not refused |
| `Descriptors.MatchExactly` | `core/memory.c:552-575` | an entry is used if its mode and the masked address are the current ones, and gives its frame with the rest of the address |
| `Mmu.OffSpan` | `core/memory.c:326-332` | with the MMU off, addresses of one entry are their own physical addresses under the same handlers |
| `Mmu.SectionSpan` | `core/memory.c:500-539` | addresses of one section entry get the same grant, further along |
| `Mmu.LargeSpan` | `core/memory.c:385-433` | so do addresses of one 64K or 16K entry |
| `Mmu.SmallSpan` | `core/memory.c:435-488` | and of one 4K or 1K entry |
| `Mmu.WalkAgain` | `core/memory.c:296-550` | walking again at any address an entry matches gives the hit's physical address and the same entry and handlers, whatever the entry held before, given large-page descriptors repeated in their sixteen slots |
| `TlbRuns.FillIsCoherent` | `core/memory.c:326-539` | what a walk leaves in an entry is coherent with the tables |
| `TlbRuns.WriteKeepsCoherent` | `core/memory.c:597-623` | a write to memory outside the table words of an entry's span keeps it coherent |
| `TlbRuns.HitAgreesExactly` | `core/memory.c:552-623` | with a coherent entry a match is the walk, if and only if no alignment fault was due |
| `Accesses.FairHitExactly` | `core/memory.c:552-565` | the matches that a disciplined run may use are those of entries not outdated, exactly where they agree with the walk |
| `Accesses.InstStaleExactly` | `core/memory.c:326-550` | an operation outdates the instruction entry exactly if it writes a table word of its span, or, with the MMU on, changes the base, S or R; a refill, a flush, new domains and a switch of the MMU make it fresh |
| `Accesses.DataStaleExactly` | `core/memory.c:326-550` | the same of the data entry, which a write may refill first |
| `Accesses.TableWordExactly` | `core/memory.c:340-364` | the words a walk reads: the first-level one, and the second-level one if that names a coarse table |
| `Accesses.DisciplinedExactly` | `core/memory.c:552-755` | a run is disciplined if every match is such a one, and every walk finds large-page descriptors repeated |
| `Accesses.MisalignedExactly` | `core/memory.c:334-338` | misaligned, with the check on, are words not at multiples of 4, halves not at multiples of 2, and no bytes |
| `TlbRuns.FreshIsSound` | `core/memory.c:142-155` | entries as initialised are coherent, whatever the registers and memory |
| `TlbRuns.RunsKeepEntriesCoherent` | `core/memory.c:552-755` | over every run of accesses, mode switches, coprocessor writes and flushes, each entry is coherent unless a table word of its span or a register its walk reads has changed since it was filled |
| `TlbRuns.TlbIsTransparent` | `core/memory.c:552-755` | over every run that does not use such a stale entry, nor a misaligned hit with alignment checks on, the machine with the TLB shows the same bus traffic, memory, registers and faults as the one that walks on every access |
| `TlbRuns.BuildsAgree` | `core/memory.c:552-755` | so from one start the two builds show the same bus traffic, halt together, and end with the same registers, memory, mode and fault flag |
| `Accesses.RepeatedExactly` | `core/memory.c:366-380` | the rule for large pages: the descriptor that a coarse table holds for an address is there for every address of its 64K |
| `MemoryUnit.TlbEntry.constructor` | `core/memory.c:142-150` | an entry that matches nothing |
| `MemoryUnit.TlbEntry.Drop` | `core/memory.c:152-155` | the entry matches nothing; its handlers stay |
| `MemoryUnit.MemInfo.constructor` | `core/memory.c:47-81` | both entries empty, no fault |
| `MemoryUnit.MemInfo.VirtualToPhysical` | `core/memory.c:296-550` | physical address, fault flag and every field of the entry after a walk, or that it aborts; what a walk gives is said bit by bit in `Descriptors` |
| `MemoryUnit.MemInfo.FromDescriptor` | `core/memory.c:340-550` | the walk once the first-level descriptor is read, all descriptor types and domains, as `Descriptors` says bit by bit |
| `MemoryUnit.MemInfo.Find` | `core/memory.c:552-565` | the entry if it matches, the walk if not |
| `MemoryUnit.MemInfo.ReadInstWord` | `core/memory.c:576-595` | the whole state after an instruction fetch, and what it answers |
| `MemoryUnit.MemInfo.ReadData` | `core/memory.c:552-665` | the whole state after a read of a word, half or byte, and what it answers |
| `MemoryUnit.MemInfo.WriteData` | `core/memory.c:597-755` | the whole state after a write of a word, half or byte; a refused write raises the fault flag only |
| `Mmu.MapAgain` | `mach/lart/lartmem.c:173-256` | mapping again within the same 16MB, under the same permissions, changes no handler |
| `Descriptors.MapRows` | `mach/lart/lartmem.c:173-256` | every range of top bytes: which read and write functions serve it, each replaced by the faulting one without its permission; which abort; which leave the handlers as they were |
| `TlbRuns.ExtractMerged` | `mach/lart/lartmem.c:273-317` | a byte, half or word written to a bank is the one read back |
| `Accesses.ExtractBits` | `mach/lart/lartmem.c:295-317` | bit k of what is read is the bit of the addressed byte, half or word, little-endian, and clear above it |
| `Accesses.MergeInside` | `mach/lart/lartmem.c:273-293` | the bits written are the data's |
| `Accesses.MergeOutside` | `mach/lart/lartmem.c:273-293` | the other bits of the word stay |
| `Accesses.BankExactly` | `mach/lart/lartmem.c:273-317` | a bank read gives that part of the bank's word, or 0 beyond the bank; a write changes it only, and nothing beyond the bank |
| `Accesses.StoredIsWalked` | `mach/lart/lartmem.c:258-293` | a word stored through a bank is the word a page walk reads at that address |
| `MemoryUnit.TlbEntry.Map` | `mach/lart/lartmem.c:173-256` | the handlers for a physical address and permissions, or that it aborts |
| `MemoryUnit.MemInfo.Store` | `mach/lart/lartmem.c:273-293` | a bank write changes that word of that bank only; a device write is sent to the bus |
| `TlbRuns.RegsKeepCoherent` | `core/execute.inc.c:1644-1715` | a coprocessor write after which walks read the same base, domains, S and R keeps entries coherent |
| `MemoryUnit.MemInfo.FlushTlbs` | `core/execute.inc.c:1745-1760` | both entries are dropped |
| `MemoryUnit.MemInfo.SetMmuControl` | `core/execute.inc.c:1644-1696` | the control register is replaced; both entries are dropped if and only if the MMU is switched on or off |
| `Accesses.ControlExactly` | `core/execute.inc.c:1644-1696` | bit 0 alone decides whether a control write empties the entries |
| `MemoryUnit.MemInfo.SetTranslationBase` | `core/execute.inc.c:1698-1703` | the table base is replaced; the entries stay |
| `MemoryUnit.MemInfo.SetDomainAccess` | `core/execute.inc.c:1705-1715` | the domain register is replaced and both entries are dropped |
| `MemoryUnit.MemInfo.SetCurrentMode` | `core/processor.c:123-203` | entries stay, and match again when their mode returns |
| `Banks.SwitchKeepsView` | `core/processor.c:27-203` | a switch between modes that have a case keeps every register of every mode, and r15 |
| `Banks.SwitchKeepsExactly` | `core/processor.c:27-203` | a switch to any number processor_mode accepts keeps every register of every mode if and only if both modes have a case, or the registers a user program sees are already where the mode without one looks for them |
| `Banks.SwitchKeepsStatus` | `core/processor.c:123-203` | every accepted switch changes no status register but the mode bits, and selects the new mode's saved one if it has a case |
| `Banks.ModeNumbers` | `core/processor.c:27-120` | the bank behind each mode number, and that every other number has none |
| `Banks.RunsRefineFlatFile` | `core/processor.c:27-203` | any run of register writes and mode switches, each of which keeps the registers, does to the banks what it does to a flat file with a register for each bank and number, r8-r12 shared outside FIQ |
| `Banks.StepRefinesExactly` | `core/processor.c:27-203` | a write always does; a switch does if and only if it keeps the registers |
| `Banks.CasedRunsAreKept` | `core/processor.c:27-203` | every run of writes and switches between modes that have a case is such a run |
| `Banks.SystemModeLosesWrite` | `core/processor.c:27-203` | System mode has no case: a write to r13 there is lost on the way back to user mode, for every state and value |
| `Banks.LastWriteIsKept` | `core/processor.c:27-203` | each register of each mode keeps its last written value through any switches and writes to others |
| `Banks.OverwritesExactly` | `core/processor.c:27-203` | the operations that overwrite a register are those that change it in the flat file |
| `Banks.SavedStatusFoundExactly` | `core/processor.c:207-279` | the status register an exception saves is the one its mode looks for, and is in range, for FIQ, IRQ and SVC and for no other mode |
| `Banks.IrqEntered` | `core/processor.c:219-228` | an interrupt starts 0x18 above the vector base (r15 two instructions ahead), in mode 18, with interrupts off, r14 one instruction behind, and the status in saved register 2, which is the one that mode reads |
| `Banks.SwiEntered` | `core/processor.c:254-268` | a SWI starts 0x08 above it, in mode 19, with saved register 3 |
| `Banks.ScratchExactly` | `core/processor.c:219-268` | what a handler may change: r13 and r14 of IRQ mode, and a SWI handler those of SVC mode too |
| `Banks.EntryIsHandled` | `core/processor.c:207-268` | entry leaves the return address, the saved status and everything outside r13 and r14 of the new mode as a handler needs them, from every mode with a case, and from any other whose registers the user bank holds |
| `Banks.ReturnRestores` | `core/processor.c:123-268` | a return from any handled exception, by a switch that keeps the registers, restores the status register and every register of every mode but the handler's scratch |
| `Banks.IrqReturns` | `core/processor.c:219-228` | IRQ entry, any handler that keeps to its scratch, and SUBS pc, r14, #4 by a switch that keeps the registers restore r15 and CPSR, and r0-r14 unless in IRQ mode itself |
| `Banks.SwiReturns` | `core/processor.c:254-268` | SWI entry, such a handler, and MOVS pc, r14 restore CPSR, with r15 one instruction on, and r0-r14 unless in SVC or IRQ mode itself |
| `Banks.IrqInsideSwi` | `core/processor.c:219-268` | an interrupt taken in a SWI handler, whatever mode the SWI was executed in, and returned from leaves that handler able to return |
| `Banks.IrqReturnsExactly` | `core/processor.c:219-228` | from every mode: an interrupt and its immediate return restore r0-r15 and CPSR if and only if it was not taken in IRQ mode, or r14 held the return address already; or, in a mode without a case, the banks held what the registers did |
| `Banks.SwiReturnsExactly` | `core/processor.c:254-268` | from every mode: SWI and its immediate MOVS pc, r14 restore them, one instruction on, if and only if the same holds of SVC mode |
| `Processor.RegisterInfo.RegSaveCurrent` | `core/processor.c:27-66` | all banks after saving from any mode |
| `Processor.RegisterInfo.RegRestoreNew` | `core/processor.c:68-120` | live registers, pc mask and saved-status index after restoring in any mode |
| `Processor.RegisterInfo.Mode` | `core/processor.c:123-203` | the whole processor state after a switch to any mode the source's assertion lets through |
| `Processor.RegisterInfo.Irq` | `core/processor.c:219-228` | the whole processor state after an interrupt, with vector, link, mode and mask in numbers |
| `Processor.RegisterInfo.Swi` | `core/processor.c:254-268` | the whole processor state after a SWI, with vector, link, mode and mask in numbers |
| `Processor.RegisterInfo.constructor` | `core/registers.c:7-45` | every register of every mode and every status register zero, in SVC mode, with vectors at zero and the user pc mask |
| `Processor.RegisterInfo.WritePcWithStatus` | `core/execute.inc.c:584-602` | the whole processor state after a flag-setting instruction that writes r15 |
| `Banks.UserTransferTouchesUserOnly` | `core/execute.inc.c:1318-1441` | in every mode, whatever is done to the live registers while the user bank is in is done to the user's registers, as seen from every mode, and to no others |
| `Banks.UserBankIsLive` | `core/execute.inc.c:1327-1335` | while it is in, the live registers are the user's, from a mode with a case or one whose registers the user bank holds |
| `Banks.UserBankIsLiveExactly` | `core/execute.inc.c:1327-1335` | they are if and only if the mode has a case, or the user bank holds the registers in use |
| `BlockTransfer.SlotsDiffer` | `core/execute.inc.c:1297-1421` | listed registers go to different words, in all four modes, also across the end of the address space |
| `BlockTransfer.OppositeLayout` | `core/execute.inc.c:1297-1421` | the opposite LDM, from the base an STM leaves, uses the same words and comes back to the first base |
| `BlockTransfer.RoundTrip` | `core/execute.inc.c:1297-1477` | STM and the opposite LDM, both with write-back, restore each listed register and the base, whatever happened to the registers in between |
| `BlockTransfer.PlainTransfer` | `core/execute.inc.c:1297-1477` | with S clear exactly the mode's own registers are loaded or written back: every register of every mode that is not live, the banks and all of the status stay |
| `BlockTransfer.PcAfter` | `core/execute.inc.c:1338-1477` | r15 ends 8 after what was loaded into it, and otherwise 4 on |
| `BlockTransfer.HattedTransfer` | `core/execute.inc.c:1318-1441` | with S set and no load of r15, under the same condition: exactly the registers a user program sees are loaded or written back; every other register of every mode and the status stay |
| `BlockTransfer.HattedTransferExactly` | `core/execute.inc.c:1318-1441` | that holds if and only if the mode has a case, or the user bank holds every register in use that is not transferred |
| `BlockTransfer.HattedStore` | `core/execute.inc.c:1318-1441` | an STM with S set stores at each listed register's word what a user program sees in it |
| `BlockTransfer.UserContextReturns` | `core/execute.inc.c:1318-1441` | a user program's registers stored with S set and loaded back with S set, from any mode and after anything in between, return, and nothing else changes |
| `BlockTransfer.WritebackReachesBaseExactly` | `core/execute.inc.c:1418-1441` | with S set the base is read from the mode's register and written back to the user's; the mode's own gets the new value if and only if the two are one register or the value is the old one |
| `BlockTransfer.BaseStaysExactly` | `core/execute.inc.c:1338-1421` | the base's new value is the old one if and only if the list is empty |
| `BlockTransfer.HattedReturn` | `core/execute.inc.c:1444-1470` | an LDM of r15 with S set, if the switch back keeps the registers, loads the mode's own registers, brings the saved status back, and continues at the loaded address |
| `BlockTransfer.Machine.TransferUp` | `core/execute.inc.c:1338-1377` | register i at start + 4 * (number of listed registers below it); nothing else moves; the base ends 4n on |
| `BlockTransfer.Machine.TransferDown` | `core/execute.inc.c:1378-1417` | the same layout, filled from the highest register downwards; the base ends 4n below |
| `BlockTransfer.Machine.MoveAll` | `core/execute.inc.c:1338-1421` | live registers and memory after either direction and the write-back, which wins over a load of the base |
| `BlockTransfer.Machine.Bdt` | `core/execute.inc.c:1297-1477` | the whole processor state and memory after LDM or STM, with S clear or set, in all four orders |
| `LinkedList.List.Add` | `libjtype/list.c:13-22` | a new item at the head, its data in front of the old contents |
| `LinkedList.List.DelinkItem` | `libjtype/list.c:48-55` | exactly that item has left the list; it keeps its link onwards |
| `LinkedList.List.RemoveHead` | `libjtype/list.c:24-29` | the list less its head, which is well formed in both directions if and only if nothing is left |
| `LinkedList.List.ItemFromData` | `libjtype/list.c:57-62` | an item with that data, or none if and only if there is none |
| `LinkedList.List.NthItem` | `libjtype/list.c:69-78` | the item that many steps on, or none |
| `LinkedList.List.Length` | `libjtype/list.c:80-90` | the number of items |
| `LinkedList.List.End` | `libjtype/list.c:92-96` | the last item, or none |
| `LinkedList.List.Reverse` | `libjtype/list.c:108-130` | the same items in reverse order, turned in place |
| `LinkedList.ReversedTwice` | `libjtype/list.c:108-130` | reversing twice gives the list back |
| `PriorityQueue.Queue.constructor` | `libjtype/pqueue.c:8-16` | an empty queue |
| `PriorityQueue.Queue.Grow` | `libjtype/pqueue.c:40-46` | room for one more, the contents kept |
| `PriorityQueue.Queue.Insert` | `libjtype/pqueue.c:40-56` | exactly one item more, in heap order, across growth of the array |
| `PriorityQueue.Queue.Head` | `libjtype/pqueue.c:58-61` | a least item, or none if and only if the queue is empty |
| `PriorityQueue.Queue.Extract` | `libjtype/pqueue.c:64-75` | a least item taken out, the rest in heap order |
| `PriorityQueue.Queue.Heapify` | `libjtype/pqueue.c:77-94` | heap order restored below an item, the same items kept |
| `PriorityQueue.Queue.Drain` | `libjtype/pqueue.c:64-94` | extracting until empty yields a drain of the contents |
| `PriorityQueue.DrainIsSorted` | `libjtype/pqueue.c:64-94` | every drain is all of the contents, with priorities that never decrease |
| `HashTable.Table.constructor` | `libjtype/hash.c:7-22` | the empty map |
| `HashTable.Table.Lookup` | `libjtype/hash.c:108-120` | the map's entry for the key, or none |
| `HashTable.Table.Insert` | `libjtype/hash.c:27-55` | the map with the key's entry, the old one if there was one; `entries` counts the keys |
| `HashTable.Table.Remove` | `libjtype/hash.c:58-81` | the map without the key, and the data it had; chains stay doubly linked |
| `HashTable.AddRepresents` | `libjtype/hash.c:42-54` | an entry put at the head of its chain keeps the chains a map with each key once |
| `HashTable.RemoveRepresents` | `libjtype/hash.c:58-81` | so does an entry taken out |
| `Strng.Buffer.AppendData` | `libjtype/buffer.c:23-35` | the data after the old contents, across doubling; its position is returned |
| `Strng.Buffer.Extend` | `libjtype/buffer.c:37-51` | the new length, the old contents kept, zeros behind them if the buffer had to grow |
| `Strng.Buffer.FromText` | `libjtype/strng.c:9-18` | a string holding the text |
| `Strng.Buffer.AppendText` | `libjtype/strng.c:39-51` | the text followed by the other text, zero-terminated |
| `Strng.Buffer.AppendString` | `libjtype/strng.c:26-37` | the same for a second string, which keeps its text |
| `Strng.Buffer.Len` | `libjtype/strng.c:53-56` | the number of characters |
| `Strng.Buffer.SliceOf` | `libjtype/strng.c:69-100` | the slice, with negative and open ends, out-of-range ends held in range |
| `Strng.SliceEnds` | `libjtype/strng.c:61-100` | slices with one end open, the other counted from the front or, if negative, from the end |
| `Strng.ListJoin` | `libjtype/strng.c:136-151` | the texts of the list joined |
| `Strng.ListSplit` | `libjtype/strng.c:154-184` | the list of parts in order |
| `Strng.PartsAreFree` | `libjtype/strng.c:154-184` | no part contains a separator |
| `Strng.JoinUndoesSplit` | `libjtype/strng.c:136-184` | joining the parts of any string split at one character gives it back |
| `Strng.SplitUndoesJoin` | `libjtype/strng.c:136-184` | splitting the join of a non-empty list of parts free of the character gives the list back |

## Left out

- Refinement.TranslationRefinesInterpretation: r15, conditional instructions, comparisons without S (which encode status transfers) and shifts by register are not translated here; most translations of the last stop at the source's own assertion (dynarec/pheta.c:1504).
- Interpreter.Cpu.ExecDp: r15 as destination is `Processor.RegisterInfo.WritePcWithStatus`; comparisons with S clear are status transfers and are left out; the source aborts on r15 as first or shifted operand of a shift by register.
- Interpreter.Cpu.ExecDpImm: r15 as destination and comparisons with S clear, as for `Interpreter.Cpu.ExecDp`.
- Interpreter.Cpu.ExecMul: r15 as destination, which the architecture does not allow, is left out; the zero-amount case of the rotate macro, undefined in C, is taken as no rotation wherever the interpreter uses it.
- PlacedExecution.SafeAllocationPreservesMeaning: a slot is a home that keeps its value; code emission between placements, with its evictions and reloads (dynarec/palloc.c:578-619), is not modelled.
- LinearScan.Allocator.LinearScan: the blocks come as a sequence in the order they are visited, with the spans of each; the depth-first choice of that order is not modelled, and lines are numbered along it.
- BranchThreading.Branches.OptimiseTransitiveBranch: a call whose loop never ends has no result, so the ghost limit witnesses that it ends; `ThreadingEnds.LoopEndsExactly` says when there is one.
- ThreadingEnds.LoopEndsExactly: on graphs on which a side that an AL or NV block never takes meets an unconditional empty block, or leaves the chunk through empty blocks, the order of visits counts (`ThreadingEnds.LateGoesRound`, `ThreadingEnds.EarlyComesToRest`); for these `ThreadingEnds.LoopEndsExactlyEverywhere` gives the condition on what some passes leave, without a bound on how many.
- FlagDemand.FlagPass.FixupFlags: a call that never ends has no result, so the ghost limit bounds the depth of the recursion; `FlagCycles.EndsWithinBoundExactly` gives one that is enough whenever any is.
- FlagCycles.PassEndsExactly: on graphs on which the pass fails it may abort before it comes to a leaking ring (`FlagCycles.AbortComesFirst`); `FlagCycles.LeaklessEnds` and `FlagCycles.EndsWithinBoundExactly` cover these too.
- TlbRuns.TlbIsTransparent: the LART physical map only; the ranges for which LART sets no handler keep the entry's old one, as in the source; device registers and flash appear as bus traffic and not as contents.
- Mmu.WalkAgain: relies on the architecture's rule that a large-page descriptor fills sixteen slots.
- Banks.RunsRefineFlatFile: a mode number below 16 is refused by the assertion in processor_mode and is no operation of a run; the others are, and `Banks.SwitchKeepsExactly` says which switches keep the registers.
- Banks.EntryIsHandled: FIQ, prefetch abort, data abort, undefined instruction and reset have no method of their own; `Banks.SavedStatusFoundExactly` shows why ABT and UND entry cannot be returned from.
- BlockTransfer.Machine.Bdt: memory is addressed by word and gives no faults; addresses wrap at 2^32; the stored value of r15 is a parameter, being chosen when the source is compiled.
- BlockTransfer.HattedStore: asks that the user bank hold what a user program sees, as `Banks.UserBankIsLiveExactly` has it; from another mode without a case the bank's own words are stored.
- Banks.IrqReturns: asks that the switch back keep the registers, as `Banks.SwitchKeepsExactly` has it; it always does to a mode with a case.
- LongMultiply.SignedMultiplyExactly: the result words only; the flags of the long multiplies are left out.
- DepthFirst.PredecessorLists.Predecessor: membership and the source's order of recording; the search for a place in finishing order compares with an unchanging -1 and always ends at the last item, so finishing times are below 2^31.
- HashTable.Table.Insert: the mask is modelled as a remainder by the size, which the constructor computes with floating point and is given here; destructors, jt_hash_nuke and jt_hash_find are left out.
- Strng.Buffer.AppendString: the two strings are different objects, as the source needs them to be when the buffer moves.
- Pointers between blocks are block numbers, condition results in an FCOMMIT are sets, and the two chunk objects that different passes use are separate classes over what each pass touches.
- Cycle counts, the address a block starts at, and text output of every pass.
- Whole-chunk control flow: finding leaders, linking blocks, branches (dynarec/pheta.c:122-241, 1803-1881).
- Strongly connected components (dynarec/pheta.c:576-633): the result is only printed.
- jt_list_insertitem (libjtype/list.c:31-45): no caller among the modelled files.
- jt_strng_list_new takes a C argument list; freeing memory has no counterpart.
- MemoryUnit.MemInfo.SetMmuControl: the three instructions run before a switch of the MMU takes effect are operations of the run before it, and the bit that moves the vectors is not kept here.
- The sign-extending accessors, and loads and stores of single registers.
- x86 emission, the assembler it uses (generated, not part of this model), native invocation.
- Debugger, disassembler, serial and video devices, RISC OS calls, Thumb.
